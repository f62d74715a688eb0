// Checked logical occupancy of tables
// (crates/xiaomu-core/src/document/table_grid.rs).
module TableGrid {
  import opened Wrappers
  import opened Content
  import opened Nodes
  import opened Tiling

  const MAX_LOGICAL_SLOTS: nat := 1_000_000
  const MAX_PHYSICAL_CELLS: nat := 100_000
  const MAX_GRID_BYTES: nat := 64 * 1024 * 1024

  // One above the largest `usize` of a 64-bit target, and the byte sizes there.
  const USIZE_LIMIT: nat := 0x1_0000_0000_0000_0000
  const SLOT_BYTES: nat := 4
  const PLACEMENT_BYTES: nat := 56
  const INDEX_BYTES: nat := 16
  const ROW_BYTES: nat := 8

  // ----- the cumulative budget

  function CheckedAdd(a: nat, b: nat): Option<nat> {
    if a + b < USIZE_LIMIT then Some(a + b) else None
  }

  function CheckedMul(a: nat, b: nat): Option<nat> {
    if a * b < USIZE_LIMIT then Some(a * b) else None
  }

  function GridBytes(slots: nat, rows: nat, cells: nat): nat {
    SLOT_BYTES * slots + (PLACEMENT_BYTES + INDEX_BYTES) * cells + ROW_BYTES * rows
  }

  // Totals across all tables of a snapshot.
  datatype Totals = Totals(slots: nat, cells: nat, bytes: nat) {
    predicate WithinCaps() {
      slots <= MAX_LOGICAL_SLOTS && cells <= MAX_PHYSICAL_CELLS && bytes <= MAX_GRID_BYTES
    }

    function Plus(rows: nat, columns: nat, cellCount: nat): Totals {
      Totals(slots + rows * columns, cells + cellCount, bytes + GridBytes(rows * columns, rows, cellCount))
    }
  }

  class TableGridBudget {
    var slots: nat
    var cells: nat
    var bytes: nat

    constructor ()
      ensures Spent() == Totals(0, 0, 0)
    {
      slots, cells, bytes := 0, 0, 0;
    }

    function Spent(): Totals
      reads this
    {
      Totals(slots, cells, bytes)
    }

    // The overflow-checked arithmetic admits a table exactly when the exact
    // totals stay within every cap; a refusal leaves the totals as they were.
    method Reserve(rows: nat, columns: nat, cellCount: nat) returns (r: Result<nat>)
      requires Spent().WithinCaps()
      modifies this
      ensures Spent().WithinCaps()
      ensures r.Ok? <==> old(Spent()).Plus(rows, columns, cellCount).WithinCaps()
      ensures r.Ok? ==> r.value == rows * columns && Spent() == old(Spent()).Plus(rows, columns, cellCount)
      ensures r.Err? ==> r.error == TableResourceLimit && Spent() == old(Spent())
    {
      var product := CheckedMul(rows, columns);
      if product.None? {
        return Err(TableResourceLimit);
      }
      var slotBytes := CheckedMul(product.value, SLOT_BYTES);
      var placementBytes := CheckedMul(cellCount, PLACEMENT_BYTES);
      var indexBytes := CheckedMul(cellCount, INDEX_BYTES);
      var rowBytes := CheckedMul(rows, ROW_BYTES);
      if slotBytes.None? || placementBytes.None? || indexBytes.None? || rowBytes.None? {
        return Err(TableResourceLimit);
      }
      var placed := CheckedAdd(slotBytes.value, placementBytes.value);
      if placed.None? {
        return Err(TableResourceLimit);
      }
      var indexed := CheckedAdd(placed.value, indexBytes.value);
      if indexed.None? {
        return Err(TableResourceLimit);
      }
      var total := CheckedAdd(indexed.value, rowBytes.value);
      if total.None? {
        return Err(TableResourceLimit);
      }
      var totalSlots := CheckedAdd(slots, product.value);
      var totalCells := CheckedAdd(cells, cellCount);
      var totalBytes := CheckedAdd(bytes, total.value);
      if totalSlots.None? || totalCells.None? || totalBytes.None? {
        return Err(TableResourceLimit);
      }
      if totalSlots.value > MAX_LOGICAL_SLOTS || totalCells.value > MAX_PHYSICAL_CELLS
        || totalBytes.value > MAX_GRID_BYTES {
        return Err(TableResourceLimit);
      }
      slots, cells, bytes := totalSlots.value, totalCells.value, totalBytes.value;
      return Ok(product.value);
    }
  }

  // ----- reading rows and cells

  function RowCells(store: Store, row: NodeId): Result<seq<NodeId>> {
    if row !in store then Err(UnknownNode)
    else
      :- Need(store[row].kind.TableRow?, InvalidTableStructure);
      :- Need(store[row].content.Children?, InvalidTableStructure);
      Ok(store[row].content.children)
  }

  // (rowspan, colspan) of a cell that holds something.
  function CellSpans(store: Store, cell: NodeId): Result<(nat, nat)> {
    if cell !in store then Err(UnknownNode)
    else
      :- Need(store[cell].kind.IsTableCell() && store[cell].content.Children? && store[cell].content.children != [],
              InvalidTableStructure);
      CellGeometry(store[cell].attrs)
  }

  lemma SpansPositive(store: Store, cell: NodeId)
    requires CellSpans(store, cell).Ok?
    ensures CellSpans(store, cell).value.0 > 0 && CellSpans(store, cell).value.1 > 0
  {}

  // A cell where it is listed.
  datatype CellRef = CellRef(cell: NodeId, row: nat, rowId: NodeId, index: nat)

  function RowRefs(store: Store, row: nat, rowId: NodeId): seq<CellRef> {
    var cells := RowCells(store, rowId);
    if cells.Err? then []
    else seq(|cells.value|, i requires 0 <= i < |cells.value| => CellRef(cells.value[i], row, rowId, i))
  }

  // All cells in physical order.
  function RefsOf(store: Store, rows: seq<NodeId>): seq<CellRef> {
    if rows == [] then []
    else
      var n := |rows| - 1;
      RefsOf(store, rows[..n]) + RowRefs(store, n, rows[n])
  }

  function ShapeOf(store: Store, ref: CellRef): (s: Shape)
    ensures s.row == ref.row && s.rowspan > 0 && s.colspan > 0
  {
    var spans := CellSpans(store, ref.cell);
    if spans.Ok? then
      SpansPositive(store, ref.cell);
      Shape(ref.row, spans.value.0, spans.value.1)
    else Shape(ref.row, 1, 1)
  }

  function ShapesOf(store: Store, refs: seq<CellRef>): (s: seq<Shape>)
    ensures |s| == |refs|
    ensures forall k :: 0 <= k < |refs| ==> s[k] == ShapeOf(store, refs[k])
  {
    seq(|refs|, k requires 0 <= k < |refs| => ShapeOf(store, refs[k]))
  }

  // Every row lists cells, and every cell has readable spans.
  ghost predicate Readable(store: Store, rows: seq<NodeId>) {
    && (forall r :: 0 <= r < |rows| ==> RowCells(store, rows[r]).Ok?)
    && (forall k :: 0 <= k < |RefsOf(store, rows)| ==> CellSpans(store, RefsOf(store, rows)[k].cell).Ok?)
  }

  // The summed width of the first row.
  function FirstWidth(store: Store, rows: seq<NodeId>): nat
    requires rows != []
  {
    SumColspans(ShapesOf(store, RowRefs(store, 0, rows[0])))
  }

  lemma {:induction false} RefsPush(store: Store, rows: seq<NodeId>, r: nat)
    requires r < |rows|
    ensures RefsOf(store, rows[..r + 1]) == RefsOf(store, rows[..r]) + RowRefs(store, r, rows[r])
  {
    hide RowRefs;
    assert rows[..r + 1][..r] == rows[..r];
  }

  // Where a row's cells lie in the whole list.
  lemma {:induction false} RefsPrefix(store: Store, rows: seq<NodeId>, r: nat)
    requires r <= |rows|
    ensures |RefsOf(store, rows[..r])| <= |RefsOf(store, rows)|
    ensures RefsOf(store, rows[..r]) == RefsOf(store, rows)[..|RefsOf(store, rows[..r])|]
    decreases |rows| - r
  {
    hide RowRefs, RefsOf;
    if r == |rows| {
      assert rows[..r] == rows;
    } else {
      RefsPush(store, rows, r);
      RefsPrefix(store, rows, r + 1);
    }
  }

  lemma {:induction false} RefsOrdered(store: Store, rows: seq<NodeId>)
    ensures forall k :: 0 <= k < |RefsOf(store, rows)| ==> RefsOf(store, rows)[k].row < |rows|
    ensures forall i, j :: 0 <= i < j < |RefsOf(store, rows)| ==>
      RefsOf(store, rows)[i].row <= RefsOf(store, rows)[j].row
  {
    if rows != [] {
      RefsOrdered(store, rows[..|rows| - 1]);
    }
  }

  // The cells of later rows come later.
  lemma {:induction false} RefsAfter(store: Store, rows: seq<NodeId>, r: nat)
    requires r <= |rows|
    ensures |RefsOf(store, rows[..r])| <= |RefsOf(store, rows)|
    ensures forall k :: |RefsOf(store, rows[..r])| <= k < |RefsOf(store, rows)| ==> RefsOf(store, rows)[k].row >= r
    decreases |rows|
  {
    if r == |rows| {
      assert rows[..r] == rows;
    } else {
      var n := |rows| - 1;
      RefsAfter(store, rows[..n], r);
      assert rows[..n][..r] == rows[..r];
    }
  }

  lemma ShapesInOrder(store: Store, rows: seq<NodeId>)
    ensures ReadingOrder(ShapesOf(store, RefsOf(store, rows)))
  {
    hide RefsOf, ShapeOf;
    RefsOrdered(store, rows);
  }

  // ----- the grid

  datatype CellPlacement = CellPlacement(cell: NodeId, row: nat, column: nat, rowspan: nat, colspan: nat,
                                         rowId: NodeId, physicalIndex: nat)

  // `slots` is row-major; each names the index of the one cell covering it.
  datatype TableGrid = TableGrid(table: NodeId, columns: nat, rows: seq<NodeId>, slots: seq<nat>,
                                 cells: seq<CellPlacement>, byId: seq<(NodeId, nat)>)

  // No owner yet, `u32::MAX`.
  const FREE: nat := 0xFFFF_FFFF

  function Slot(y: nat, x: nat, width: nat): nat {
    y * width + x
  }

  lemma SlotInRange(y: nat, x: nat, height: nat, width: nat)
    requires y < height && x < width
    ensures Slot(y, x, width) < height * width
  {
    assert (y + 1) * width <= height * width;
  }

  function Columns(cells: seq<CellPlacement>): (r: seq<nat>)
    ensures |r| == |cells|
    ensures forall k :: 0 <= k < |cells| ==> r[k] == cells[k].column
  {
    seq(|cells|, k requires 0 <= k < |cells| => cells[k].column)
  }

  function PlacementOf(ref: CellRef, shape: Shape, column: nat): CellPlacement {
    CellPlacement(ref.cell, ref.row, column, shape.rowspan, shape.colspan, ref.rowId, ref.index)
  }

  // The slots record exactly which placed cell covers each place.
  ghost predicate SlotsHold(slots: seq<nat>, shapes: seq<Shape>, columns: seq<nat>, height: nat, width: nat) {
    && |slots| == height * width && |columns| <= |shapes|
    && forall y: nat, x: nat :: y < height && x < width ==> SlotHolds(slots, shapes, columns, y, x, width)
  }

  ghost predicate SlotHolds(slots: seq<nat>, shapes: seq<Shape>, columns: seq<nat>, y: nat, x: nat, width: nat) {
    && Slot(y, x, width) < |slots| && |columns| <= |shapes|
    && var owner := slots[Slot(y, x, width)];
      && (owner == FREE <==> !Covered(shapes, columns, y, x))
      && (owner != FREE ==> owner < |columns| && Covers(shapes[owner], columns[owner], y, x))
  }

  // What the filler knows after placing `cells`: they are sound, and every
  // tiling starts with them.
  ghost predicate Filling(store: Store, refs: seq<CellRef>, cells: seq<CellPlacement>, slots: seq<nat>, height: nat,
                          width: nat) {
    && |cells| <= |refs|
    && (forall k :: 0 <= k < |cells| ==> CellSpans(store, refs[k].cell).Ok?
                                          && cells[k] == PlacementOf(refs[k], ShapeOf(store, refs[k]), cells[k].column))
    && var shapes := ShapesOf(store, refs);
      && Fits(shapes, Columns(cells), height, width)
      && LeftToRight(shapes, Columns(cells)) && Disjoint(shapes, Columns(cells))
      && SlotsHold(slots, shapes, Columns(cells), height, width)
      && Forced(shapes, Columns(cells), height, width)
  }

  ghost predicate Forced(shapes: seq<Shape>, columns: seq<nat>, height: nat, width: nat) {
    |columns| <= |shapes| && forall tiling :: Tiles(shapes, tiling, height, width) ==> tiling[..|columns|] == columns
  }

  lemma ColumnsPush(cells: seq<CellPlacement>, placement: CellPlacement)
    ensures Columns(cells + [placement]) == Columns(cells) + [placement.column]
  {}

  // ----- placing one cell

  ghost predicate RectFree(slots: seq<nat>, top: nat, bottom: nat, left: nat, right: nat, width: nat) {
    forall y: nat, x: nat :: top <= y < bottom && left <= x < right ==>
      Slot(y, x, width) < |slots| && slots[Slot(y, x, width)] == FREE
  }

  // The rectangle marked with its owner, everything else as before.
  ghost predicate RectMarked(before: seq<nat>, slots: seq<nat>, top: nat, bottom: nat, left: nat, right: nat,
                             width: nat, owner: nat) {
    && |slots| == |before|
    && forall y: nat, x: nat :: x < width && Slot(y, x, width) < |slots| ==>
      slots[Slot(y, x, width)] == if top <= y < bottom && left <= x < right then owner else before[Slot(y, x, width)]
  }

  lemma SlotInRow(y: nat, x: nat, row: nat, left: nat, right: nat, width: nat)
    requires x < width && left <= right <= width
    ensures row * width + left <= Slot(y, x, width) < row * width + right <==> y == row && left <= x < right
  {
    assert y < row ==> (y + 1) * width <= row * width;
    assert row < y ==> (row + 1) * width <= y * width;
  }

  // Marks a stretch if all of it is free, and nothing otherwise.
  method FillRow(slots: array<nat>, lo: nat, hi: nat, owner: nat) returns (ok: bool)
    requires lo <= hi <= slots.Length
    modifies slots
    ensures ok <==> forall j :: lo <= j < hi ==> old(slots[j]) == FREE
    ensures forall j :: 0 <= j < slots.Length ==> slots[j] == if ok && lo <= j < hi then owner else old(slots[j])
  {
    for j := lo to hi
      invariant forall i :: lo <= i < j ==> slots[i] == FREE
    {
      if slots[j] != FREE {
        return false;
      }
    }
    for j := lo to hi
      invariant forall i :: 0 <= i < slots.Length ==> slots[i] == if lo <= i < j then owner else old(slots[i])
    {
      slots[j] := owner;
    }
    return true;
  }

  lemma {:induction false} MarkedRowMore(before: seq<nat>, middle: seq<nat>, after: seq<nat>, top: nat, y: nat,
                                         left: nat, right: nat, width: nat, owner: nat)
    requires left <= right <= width && top <= y
    requires RectMarked(before, middle, top, y, left, right, width, owner) && |after| == |middle|
    requires forall j :: 0 <= j < |after| ==>
      after[j] == if y * width + left <= j < y * width + right then owner else middle[j]
    ensures RectMarked(before, after, top, y + 1, left, right, width, owner)
  {
    hide Slot;
    forall y': nat, x: nat | x < width && Slot(y', x, width) < |after|
      ensures after[Slot(y', x, width)] == if top <= y' < y + 1 && left <= x < right then owner
        else before[Slot(y', x, width)]
    {
      SlotInRow(y', x, y, left, right, width);
    }
  }

  lemma RowSlots(y: nat, right: nat, width: nat, height: nat)
    requires y < height && right <= width
    ensures y * width + right <= height * width
    ensures forall x: nat :: x < right ==> Slot(y, x, width) == y * width + x
  {
    assert (y + 1) * width <= height * width;
  }

  lemma {:induction false} RowStillFree(before: seq<nat>, middle: seq<nat>, top: nat, y: nat, left: nat, right: nat,
                                        width: nat, owner: nat, height: nat)
    requires left <= right <= width && top <= y < height && |before| == height * width
    requires RectMarked(before, middle, top, y, left, right, width, owner)
    ensures y * width + right <= |middle|
    ensures (forall j :: y * width + left <= j < y * width + right ==> middle[j] == FREE)
      <==> RectFree(before, y, y + 1, left, right, width)
  {
    hide Slot, RectFree, RectMarked;
    RowSlots(y, right, width, height);
    assert |middle| == |before| by { MarkedLength(before, middle, top, y, left, right, width, owner); }
    UnmarkedRow(before, middle, top, y, y * width, left, right, width, owner);
    FreeInRow(before, y, y * width, left, right, width);
  }

  lemma MarkedLength(before: seq<nat>, middle: seq<nat>, top: nat, bottom: nat, left: nat, right: nat, width: nat,
                     owner: nat)
    requires RectMarked(before, middle, top, bottom, left, right, width, owner)
    ensures |middle| == |before|
  {
    hide Slot;
  }

  // Marking the rows above leaves this row's stretch.
  lemma {:induction false} UnmarkedRow(before: seq<nat>, middle: seq<nat>, top: nat, y: nat, base: nat, left: nat,
                                       right: nat, width: nat, owner: nat)
    requires RectMarked(before, middle, top, y, left, right, width, owner) && left <= right <= width
    requires base + right <= |before| == |middle| && forall x: nat :: x < right ==> Slot(y, x, width) == base + x
    ensures forall j :: base + left <= j < base + right ==> middle[j] == before[j]
  {
    hide Slot;
    forall j | base + left <= j < base + right
      ensures middle[j] == before[j]
    {
      assert Slot(y, j - base, width) == j;
    }
  }

  lemma {:induction false} FreeInRow(slots: seq<nat>, y: nat, base: nat, left: nat, right: nat, width: nat)
    requires left <= right && base + right <= |slots| && forall x: nat :: x < right ==> Slot(y, x, width) == base + x
    ensures (forall j :: base + left <= j < base + right ==> slots[j] == FREE) <==>
      RectFree(slots, y, y + 1, left, right, width)
  {
    hide Slot;
    if RectFree(slots, y, y + 1, left, right, width) {
      forall j | base + left <= j < base + right
        ensures slots[j] == FREE
      {
        assert Slot(y, j - base, width) == j;
      }
    }
  }

  // The covering loop: marks the whole rectangle, or stops at a collision.
  method FillRect(slots: array<nat>, height: nat, width: nat, top: nat, bottom: nat, left: nat, right: nat, owner: nat)
      returns (ok: bool)
    requires top <= bottom <= height && left <= right <= width && slots.Length == height * width
    modifies slots
    ensures ok <==> RectFree(old(slots[..]), top, bottom, left, right, width)
    ensures ok ==> RectMarked(old(slots[..]), slots[..], top, bottom, left, right, width, owner)
  {
    hide Slot, RectFree, RectMarked;
    ghost var before := slots[..];
    MarkedNothing(before, top, left, right, width, owner);
    for y := top to bottom
      invariant RectMarked(before, slots[..], top, y, left, right, width, owner)
      invariant RectFree(before, top, y, left, right, width)
    {
      ghost var middle := slots[..];
      RowStillFree(before, middle, top, y, left, right, width, owner, height);
      var clear := FillRow(slots, y * width + left, y * width + right, owner);
      FreeRows(before, top, y, bottom, left, right, width);
      if !clear {
        return false;
      }
      MarkedRowMore(before, middle, slots[..], top, y, left, right, width, owner);
    }
    return true;
  }

  lemma MarkedNothing(before: seq<nat>, top: nat, left: nat, right: nat, width: nat, owner: nat)
    ensures RectMarked(before, before, top, top, left, right, width, owner)
      && RectFree(before, top, top, left, right, width)
  {}

  lemma FreeRows(slots: seq<nat>, top: nat, y: nat, bottom: nat, left: nat, right: nat, width: nat)
    requires top <= y < bottom
    ensures RectFree(slots, top, y + 1, left, right, width)
      <==> RectFree(slots, top, y, left, right, width) && RectFree(slots, y, y + 1, left, right, width)
    ensures RectFree(slots, top, bottom, left, right, width) ==> RectFree(slots, y, y + 1, left, right, width)
  {
    hide Slot;
  }

  // ----- one more cell

  ghost predicate NoTiling(shapes: seq<Shape>, height: nat, width: nat) {
    forall tiling :: !Tiles(shapes, tiling, height, width)
  }

  lemma {:induction false} ForcedMore(shapes: seq<Shape>, columns: seq<nat>, height: nat, width: nat, free: nat)
    requires ReadingOrder(shapes) && Forced(shapes, columns, height, width) && |columns| < |shapes|
    requires FirstFree(shapes, columns, shapes[|columns|].row, free)
    ensures Forced(shapes, columns + [free], height, width)
  {
    hide Tiles, FirstFree, ReadingOrder;
    var k := |columns|;
    forall tiling | Tiles(shapes, tiling, height, width)
      ensures |tiling| == |shapes| && tiling[..k + 1] == columns + [free]
    {
      TilesAll(shapes, tiling, height, width);
      NextIsForced(shapes, tiling, height, width, k, free);
      assert tiling[..k + 1] == tiling[..k] + [tiling[k]];
    }
  }

  lemma TilesAll(shapes: seq<Shape>, tiling: seq<nat>, height: nat, width: nat)
    requires Tiles(shapes, tiling, height, width)
    ensures |tiling| == |shapes|
  {}

  // A place is free in the slots exactly when no placed cell covers it.
  lemma {:induction false} RectFreeMeans(slots: seq<nat>, shapes: seq<Shape>, columns: seq<nat>, height: nat,
                                         width: nat, top: nat, bottom: nat, left: nat, right: nat)
    requires SlotsHold(slots, shapes, columns, height, width) && bottom <= height && right <= width
    ensures RectFree(slots, top, bottom, left, right, width) <==>
      forall y: nat, x: nat :: top <= y < bottom && left <= x < right ==> !Covered(shapes, columns, y, x)
  {
    hide Slot, Covered, Covers;
    forall y: nat, x: nat | top <= y < bottom && left <= x < right
      ensures Slot(y, x, width) < |slots| && (slots[Slot(y, x, width)] == FREE <==> !Covered(shapes, columns, y, x))
    {
      assert SlotHolds(slots, shapes, columns, y, x, width);
    }
  }

  lemma {:induction false} NoPlaceNoTiling(shapes: seq<Shape>, columns: seq<nat>, slots: seq<nat>, height: nat,
                                           width: nat, free: nat)
    requires ReadingOrder(shapes) && Forced(shapes, columns, height, width) && |columns| < |shapes|
    requires SlotsHold(slots, shapes, columns, height, width)
    requires FirstFree(shapes, columns, shapes[|columns|].row, free)
    requires var shape := shapes[|columns|];
      || shape.row + shape.rowspan > height || free + shape.colspan > width
      || !RectFree(slots, shape.row, shape.row + shape.rowspan, free, free + shape.colspan, width)
    ensures NoTiling(shapes, height, width)
  {
    hide FirstFree, ReadingOrder, SlotsHold, RectFree;
    var k := |columns|;
    var shape := shapes[k];
    forall tiling
      ensures !Tiles(shapes, tiling, height, width)
    {
      if Tiles(shapes, tiling, height, width) {
        NextIsForced(shapes, tiling, height, width, k, free);
        NextIsClear(shapes, tiling, height, width, columns);
        RectFreeMeans(slots, shapes, columns, height, width, shape.row, shape.row + shape.rowspan, free,
            free + shape.colspan);
      }
    }
  }

  lemma {:induction false} NextIsClear(shapes: seq<Shape>, tiling: seq<nat>, height: nat, width: nat, columns: seq<nat>)
    requires Tiles(shapes, tiling, height, width) && |columns| < |shapes| && tiling[..|columns|] == columns
    ensures var k := |columns|;
      && shapes[k].row + shapes[k].rowspan <= height
      && forall y: nat, x: nat :: Covers(shapes[k], tiling[k], y, x) ==> !Covered(shapes, columns, y, x)
  {
    hide Covers;
    var k := |columns|;
    forall y: nat, x: nat | Covers(shapes[k], tiling[k], y, x)
      ensures !Covered(shapes, columns, y, x)
    {
      CoveredPrefix(shapes, tiling, k, y, x);
    }
  }

  lemma {:induction false} PlacedShapes(shapes: seq<Shape>, columns: seq<nat>, height: nat, width: nat, free: nat)
    requires |columns| < |shapes|
    requires Fits(shapes, columns, height, width) && LeftToRight(shapes, columns) && Disjoint(shapes, columns)
    requires var shape := shapes[|columns|];
      && shape.row + shape.rowspan <= height && free + shape.colspan <= width
      && (forall i :: 0 <= i < |columns| && shapes[i].row == shape.row ==> columns[i] < free)
      && (forall y: nat, x: nat :: Covers(shape, free, y, x) ==> !Covered(shapes, columns, y, x))
    ensures Fits(shapes, columns + [free], height, width) && LeftToRight(shapes, columns + [free])
      && Disjoint(shapes, columns + [free])
  {
    hide Covers;
    var longer := columns + [free];
    forall i, j, y, x | 0 <= i < j < |longer| && Covers(shapes[i], longer[i], y, x)
      ensures !Covers(shapes[j], longer[j], y, x)
    {
      if j == |columns| {
        assert Covered(shapes, columns, y, x);
      }
    }
  }

  lemma {:induction false} PlacedSlots(slots: seq<nat>, marked: seq<nat>, shapes: seq<Shape>, columns: seq<nat>,
                                       height: nat, width: nat, free: nat)
    requires |columns| < |shapes| && |columns| < FREE && SlotsHold(slots, shapes, columns, height, width)
    requires var shape := shapes[|columns|];
      RectMarked(slots, marked, shape.row, shape.row + shape.rowspan, free, free + shape.colspan, width, |columns|)
    ensures SlotsHold(marked, shapes, columns + [free], height, width)
  {
    hide Slot, Covered;
    var k := |columns|;
    var longer := columns + [free];
    assert longer[..k] == columns && longer[..k + 1] == longer;
    forall y: nat, x: nat | y < height && x < width
      ensures SlotHolds(marked, shapes, longer, y, x, width)
    {
      assert SlotHolds(slots, shapes, columns, y, x, width);
      OneMoreCovers(shapes, longer, k, y, x);
    }
  }

  lemma {:induction false} PlaceCell(store: Store, refs: seq<CellRef>, cells: seq<CellPlacement>, slots: seq<nat>,
                                     marked: seq<nat>, height: nat, width: nat, free: nat)
    requires Filling(store, refs, cells, slots, height, width) && |cells| < |refs| && |cells| < FREE
    requires CellSpans(store, refs[|cells|].cell).Ok? && ReadingOrder(ShapesOf(store, refs))
    requires var shape := ShapeOf(store, refs[|cells|]);
      && shape.row + shape.rowspan <= height && free + shape.colspan <= width
      && FirstFree(ShapesOf(store, refs), Columns(cells), shape.row, free)
      && (forall i :: 0 <= i < |cells| && cells[i].row == shape.row ==> cells[i].column < free)
      && RectFree(slots, shape.row, shape.row + shape.rowspan, free, free + shape.colspan, width)
      && RectMarked(slots, marked, shape.row, shape.row + shape.rowspan, free, free + shape.colspan, width, |cells|)
    ensures Filling(store, refs, cells + [PlacementOf(refs[|cells|], ShapeOf(store, refs[|cells|]), free)], marked,
        height, width)
  {
    hide ShapeOf, CellSpans, Fits, LeftToRight, Disjoint, SlotsHold, Forced, RectFree, RectMarked, FirstFree, Covered;
    hide ReadingOrder;
    var shapes, columns, k := ShapesOf(store, refs), Columns(cells), |cells|;
    var shape := shapes[k];
    var placement := PlacementOf(refs[k], shape, free);
    ColumnsPush(cells, placement);
    RectFreeMeans(slots, shapes, columns, height, width, shape.row, shape.row + shape.rowspan, free,
        free + shape.colspan);
    PlacedShapes(shapes, columns, height, width, free);
    PlacedSlots(slots, marked, shapes, columns, height, width, free);
    ForcedMore(shapes, columns, height, width, free);
  }

  // ----- finished rows

  lemma {:induction false} HoleNoTiling(shapes: seq<Shape>, columns: seq<nat>, height: nat, width: nat, y: nat, x: nat)
    requires ReadingOrder(shapes) && Forced(shapes, columns, height, width)
    requires y < height && x < width && !Covered(shapes, columns, y, x)
    requires forall i :: |columns| <= i < |shapes| ==> shapes[i].row > y
    ensures NoTiling(shapes, height, width)
  {
    hide Tiles, Covered;
    forall tiling
      ensures !Tiles(shapes, tiling, height, width)
    {
      if Tiles(shapes, tiling, height, width) {
        RowIsFull(shapes, tiling, height, width, |columns|, y, x);
      }
    }
  }

  // ----- the filler

  // A row's cells in the whole list.
  lemma {:induction false} RefAt(store: Store, rows: seq<NodeId>, r: nat, i: nat)
    requires r < |rows| && RowCells(store, rows[r]).Ok? && i < |RowCells(store, rows[r]).value|
    ensures var base := |RefsOf(store, rows[..r])|;
      && base + i < |RefsOf(store, rows)|
      && RefsOf(store, rows)[base + i] == CellRef(RowCells(store, rows[r]).value[i], r, rows[r], i)
      && |RefsOf(store, rows[..r + 1])| == base + |RowCells(store, rows[r]).value|
  {
    hide RowCells, RefsOf;
    RefsPush(store, rows, r);
    RefsPrefix(store, rows, r + 1);
    var base := |RefsOf(store, rows[..r])|;
    assert RefsOf(store, rows[..r + 1])[base + i] == RowRefs(store, r, rows[r])[i];
  }

  lemma {:induction false} RowEnd(store: Store, rows: seq<NodeId>, r: nat)
    requires r < |rows| && RowCells(store, rows[r]).Ok?
    ensures |RefsOf(store, rows[..r + 1])| == |RefsOf(store, rows[..r])| + |RowCells(store, rows[r]).value|
    ensures |RefsOf(store, rows[..r + 1])| <= |RefsOf(store, rows)|
  {
    hide RowCells, RefsOf;
    RefsPush(store, rows, r);
    RefsPrefix(store, rows, r + 1);
  }

  // The leftmost free slot at or after `from`; the slots before it are covered.
  method SkipCovered(slots: array<nat>, ghost shapes: seq<Shape>, ghost columns: seq<nat>, height: nat, width: nat,
                     row: nat, from: nat)
      returns (column: nat)
    requires slots.Length == height * width && row < height && from <= width
    requires SlotsHold(slots[..], shapes, columns, height, width) && Fits(shapes, columns, height, width)
    requires forall x: nat :: x < from ==> Covered(shapes, columns, row, x)
    ensures from <= column <= width && FirstFree(shapes, columns, row, column)
  {
    hide Covered, Fits, SlotsHold, Slot;
    RowSlots(row, width, width, height);
    column := from;
    while column < width && slots[row * width + column] != FREE
      invariant from <= column <= width
      invariant forall x: nat :: x < column ==> Covered(shapes, columns, row, x)
    {
      SlotAt(slots[..], shapes, columns, height, width, row, column);
      column := column + 1;
    }
    if column == width {
      FitsWidth(shapes, columns, height, width);
      NotCoveredFar(shapes, columns, width, row);
    } else {
      SlotAt(slots[..], shapes, columns, height, width, row, column);
    }
  }

  lemma FitsWidth(shapes: seq<Shape>, columns: seq<nat>, height: nat, width: nat)
    requires Fits(shapes, columns, height, width)
    ensures |columns| <= |shapes| && forall k :: 0 <= k < |columns| ==> columns[k] + shapes[k].colspan <= width
  {}

  lemma SlotAt(slots: seq<nat>, shapes: seq<Shape>, columns: seq<nat>, height: nat, width: nat, y: nat, x: nat)
    requires SlotsHold(slots, shapes, columns, height, width) && y < height && x < width
    ensures Slot(y, x, width) == y * width + x < |slots|
    ensures slots[Slot(y, x, width)] != FREE <==> Covered(shapes, columns, y, x)
  {
    hide Covered, Covers;
    assert SlotHolds(slots, shapes, columns, y, x, width);
  }

  // What is known at the start of a row and after its first `i` cells.
  ghost predicate RowFilling(store: Store, rows: seq<NodeId>, refs: seq<CellRef>, cells: seq<CellPlacement>,
                             slots: seq<nat>, width: nat, row: nat, i: nat, column: nat) {
    && row < |rows| && refs == RefsOf(store, rows) && |cells| == |RefsOf(store, rows[..row])| + i
    && Filling(store, refs, cells, slots, |rows|, width)
    && column <= width
    && (forall x: nat :: x < column ==> Covered(ShapesOf(store, refs), Columns(cells), row, x))
    && (forall k :: 0 <= k < |cells| && cells[k].row == row ==> cells[k].column < column)
  }

  // The inner loop's body: places the `i`-th cell of a row.
  method PlaceNext(store: Store, rows: seq<NodeId>, ghost refs: seq<CellRef>, width: nat, slots: array<nat>,
                   cells0: seq<CellPlacement>, row: nat, i: nat, column0: nat, cell: NodeId)
      returns (r: Result<seq<CellPlacement>>, column: nat)
    requires slots.Length == |rows| * width && |refs| < FREE
    requires RowFilling(store, rows, refs, cells0, slots[..], width, row, i, column0)
    requires RowCells(store, rows[row]).Ok? && i < |RowCells(store, rows[row]).value|
      && cell == RowCells(store, rows[row]).value[i]
    modifies slots
    ensures r.Ok? ==> cells0 <= r.value && RowFilling(store, rows, refs, r.value, slots[..], width, row, i + 1, column)
    ensures r.Err? ==> !Readable(store, rows) || NoTiling(ShapesOf(store, refs), |rows|, width)
  {
    hide Filling, Covered, FirstFree, CellSpans, RowCells, RefsOf, RectFree, RectMarked, ReadingOrder;
    ghost var shapes, columns, k := ShapesOf(store, refs), Columns(cells0), |cells0|;
    ghost var before := slots[..];
    RefAt(store, rows, row, i);
    ShapesInOrder(store, rows);
    FillingParts(store, refs, cells0, before, |rows|, width);
    column := SkipCovered(slots, shapes, columns, |rows|, width, row, column0);
    var spans := CellSpans(store, cell);
    if spans.Err? {
      return Err(spans.error), column;
    }
    ShapeIs(store, refs[k]);
    var rowspan, colspan := spans.value.0, spans.value.1;
    var bottom, right := row + rowspan, column + colspan;
    if bottom > |rows| || right > width {
      NoPlaceNoTiling(shapes, columns, before, |rows|, width, column);
      return Err(InvalidTableStructure), column;
    }
    // The cell count keeps `k` a valid slot owner.
    var clear := FillRect(slots, |rows|, width, row, bottom, column, right, |cells0|);
    if !clear {
      NoPlaceNoTiling(shapes, columns, before, |rows|, width, column);
      return Err(InvalidTableStructure), column;
    }
    PlaceCell(store, refs, cells0, before, slots[..], |rows|, width, column);
    var placement := CellPlacement(cell, row, column, rowspan, colspan, rows[row], i);
    NextCovered(shapes, columns, row, column, right);
    ColumnsPush(cells0, placement);
    column := right;
    r := Ok(cells0 + [placement]);
  }

  lemma FillingParts(store: Store, refs: seq<CellRef>, cells: seq<CellPlacement>, slots: seq<nat>, height: nat,
                     width: nat)
    requires Filling(store, refs, cells, slots, height, width)
    ensures var shapes := ShapesOf(store, refs);
      && |cells| <= |refs| && Fits(shapes, Columns(cells), height, width)
      && SlotsHold(slots, shapes, Columns(cells), height, width) && Forced(shapes, Columns(cells), height, width)
    ensures forall k :: 0 <= k < |cells| ==>
      CellSpans(store, refs[k].cell).Ok? && cells[k] == PlacementOf(refs[k], ShapeOf(store, refs[k]), cells[k].column)
  {
    hide Fits, SlotsHold, Forced, Disjoint, LeftToRight;
  }

  lemma ShapeIs(store: Store, ref: CellRef)
    requires CellSpans(store, ref.cell).Ok?
    ensures ShapeOf(store, ref)
      == Shape(ref.row, CellSpans(store, ref.cell).value.0, CellSpans(store, ref.cell).value.1)
  {
    hide CellSpans;
  }

  lemma {:induction false} NextCovered(shapes: seq<Shape>, columns: seq<nat>, row: nat, column: nat, right: nat)
    requires |columns| < |shapes| && shapes[|columns|].row == row && shapes[|columns|].rowspan > 0
    requires right == column + shapes[|columns|].colspan
    requires FirstFree(shapes, columns, row, column)
    ensures forall x: nat :: x < right ==> Covered(shapes, columns + [column], row, x)
  {
    hide Covered;
    var longer, k := columns + [column], |columns|;
    assert longer[..k] == columns && longer[..k + 1] == longer;
    forall x: nat | x < right
      ensures Covered(shapes, longer, row, x)
    {
      OneMoreCovers(shapes, longer, k, row, x);
    }
  }

  // One pass of the outer loop: a row's cells, then the check for holes.
  method PlaceRow(store: Store, rows: seq<NodeId>, ghost refs: seq<CellRef>, width: nat, slots: array<nat>,
                  cells0: seq<CellPlacement>, row: nat) returns (r: Result<seq<CellPlacement>>)
    requires slots.Length == |rows| * width && |refs| < FREE && row < |rows| && RowCells(store, rows[row]).Ok?
    requires RowFilling(store, rows, refs, cells0, slots[..], width, row, 0, 0)
    modifies slots
    ensures r.Ok? ==> |r.value| == |RefsOf(store, rows[..row + 1])| && Filling(store, refs, r.value, slots[..],
        |rows|, width)
    ensures r.Ok? ==> cells0 <= r.value
    ensures r.Ok? ==> forall x: nat :: x < width ==> Covered(ShapesOf(store, refs), Columns(r.value), row, x)
    ensures r.Err? ==> !Readable(store, rows) || NoTiling(ShapesOf(store, refs), |rows|, width)
  {
    hide Filling, Covered, RowCells, RefsOf, RowFilling, NoTiling, Readable, SlotsHold, Forced, ReadingOrder, ShapesOf;
    var listed := RowCells(store, rows[row]).value;
    RowEnd(store, rows, row);
    var cells := cells0;
    var column := 0;
    for i := 0 to |listed|
      invariant RowFilling(store, rows, refs, cells, slots[..], width, row, i, column)
      invariant cells0 <= cells
    {
      var placed, next := PlaceNext(store, rows, refs, width, slots, cells, row, i, column, listed[i]);
      if placed.Err? {
        return Err(placed.error);
      }
      cells, column := placed.value, next;
    }
    ghost var filled := slots[..];
    RowFilled(store, rows, refs, cells, filled, width, row, |listed|, column);
    RowSlots(row, width, width, |rows|);
    for x := 0 to width
      invariant slots[..] == filled
      invariant forall z: nat :: z < x ==> Covered(ShapesOf(store, refs), Columns(cells), row, z)
    {
      SlotAt(filled, ShapesOf(store, refs), Columns(cells), |rows|, width, row, x);
      if slots[row * width + x] == FREE {
        RestIsLater(store, rows, row);
        HoleNoTiling(ShapesOf(store, refs), Columns(cells), |rows|, width, row, x);
        return Err(InvalidTableStructure);
      }
    }
    return Ok(cells);
  }

  lemma RowFilled(store: Store, rows: seq<NodeId>, refs: seq<CellRef>, cells: seq<CellPlacement>, slots: seq<nat>,
                  width: nat, row: nat, i: nat, column: nat)
    requires RowFilling(store, rows, refs, cells, slots, width, row, i, column)
    ensures refs == RefsOf(store, rows) && |cells| == |RefsOf(store, rows[..row])| + i
    ensures Filling(store, refs, cells, slots, |rows|, width) && |Columns(cells)| <= |ShapesOf(store, refs)|
    ensures SlotsHold(slots, ShapesOf(store, refs), Columns(cells), |rows|, width)
    ensures Forced(ShapesOf(store, refs), Columns(cells), |rows|, width)
  {
    hide Filling, SlotsHold, Forced, Fits, RefsOf;
    FillingParts(store, refs, cells, slots, |rows|, width);
  }

  lemma {:induction false} RestIsLater(store: Store, rows: seq<NodeId>, row: nat)
    requires row < |rows|
    ensures ReadingOrder(ShapesOf(store, RefsOf(store, rows)))
    ensures forall i :: |RefsOf(store, rows[..row + 1])| <= i < |RefsOf(store, rows)| ==>
      ShapesOf(store, RefsOf(store, rows))[i].row > row
  {
    hide RefsOf;
    ShapesInOrder(store, rows);
    RefsAfter(store, rows, row + 1);
  }

  // ----- the whole grid

  lemma {:induction false} RowStarts(store: Store, rows: seq<NodeId>, refs: seq<CellRef>, cells: seq<CellPlacement>,
                                     slots: seq<nat>, width: nat, row: nat)
    requires row < |rows| && refs == RefsOf(store, rows) && |cells| == |RefsOf(store, rows[..row])|
    requires Filling(store, refs, cells, slots, |rows|, width)
    ensures RowFilling(store, rows, refs, cells, slots, width, row, 0, 0)
  {
    hide Filling, RefsOf, Covered;
    FillingParts(store, refs, cells, slots, |rows|, width);
    RefsPrefix(store, rows, row);
    RefsOrdered(store, rows[..row]);
    forall k | 0 <= k < |cells|
      ensures cells[k].row != row
    {
      assert refs[k] == RefsOf(store, rows[..row])[k];
    }
  }

  lemma {:induction false} NothingPlaced(store: Store, refs: seq<CellRef>, slots: seq<nat>, height: nat, width: nat)
    requires |slots| == height * width && forall j :: 0 <= j < |slots| ==> slots[j] == FREE
    ensures Filling(store, refs, [], slots, height, width)
  {
    hide ShapeOf, Slot, Covers;
    var shapes := ShapesOf(store, refs);
    forall y: nat, x: nat | y < height && x < width
      ensures SlotHolds(slots, shapes, Columns([]), y, x, width)
    {
      SlotInRange(y, x, height, width);
    }
    forall tiling | Tiles(shapes, tiling, height, width)
      ensures |tiling| >= 0 && tiling[..0] == Columns([])
    {}
  }

  lemma CoveredGrows(shapes: seq<Shape>, columns: seq<nat>, more: seq<nat>, y: nat, x: nat)
    requires columns <= more && |more| <= |shapes| && Covered(shapes, columns, y, x)
    ensures Covered(shapes, more, y, x)
  {
    hide Covers;
    var k :| 0 <= k < |columns| && Covers(shapes[k], columns[k], y, x);
    assert more[k] == columns[k];
  }

  // The result of the nested filling loops.
  ghost predicate Filled(store: Store, rows: seq<NodeId>, width: nat, slots: seq<nat>, cells: seq<CellPlacement>) {
    var refs := RefsOf(store, rows); var shapes := ShapesOf(store, refs);
    && |cells| == |refs|
    && (forall k :: 0 <= k < |cells| ==> cells[k] == PlacementOf(refs[k], ShapeOf(store, refs[k]), cells[k].column))
    && Tiles(shapes, Columns(cells), |rows|, width)
    && SlotsHold(slots, shapes, Columns(cells), |rows|, width)
  }

  lemma {:induction false} AllPlaced(store: Store, rows: seq<NodeId>, width: nat, slots: seq<nat>,
                                     cells: seq<CellPlacement>)
    requires Filling(store, RefsOf(store, rows), cells, slots, |rows|, width) && |cells| == |RefsOf(store, rows)|
    requires forall y: nat, x: nat :: y < |rows| && x < width ==>
      Covered(ShapesOf(store, RefsOf(store, rows)), Columns(cells), y, x)
    ensures Filled(store, rows, width, slots, cells)
    ensures forall k :: 0 <= k < |RefsOf(store, rows)| ==> CellSpans(store, RefsOf(store, rows)[k].cell).Ok?
  {
    hide RefsOf, Covered, CellSpans, ShapeOf, SlotsHold, Forced, Fits, LeftToRight, Disjoint;
  }

  method FillGrid(store: Store, rows: seq<NodeId>, width: nat) returns (r: Result<(seq<nat>, seq<CellPlacement>)>)
    requires |RefsOf(store, rows)| < FREE && forall i :: 0 <= i < |rows| ==> RowCells(store, rows[i]).Ok?
    ensures r.Ok? ==> Readable(store, rows) && Filled(store, rows, width, r.value.0, r.value.1)
    ensures r.Err? ==> !Readable(store, rows) || NoTiling(ShapesOf(store, RefsOf(store, rows)), |rows|, width)
  {
    hide Filling, Covered, RowCells, RefsOf, NoTiling, CellSpans, ShapesOf, Filled, RowFilling;
    ghost var refs := RefsOf(store, rows);
    ghost var shapes := ShapesOf(store, refs);
    var slots := new nat[|rows| * width](_ => FREE);
    var cells: seq<CellPlacement> := [];
    NothingPlaced(store, refs, slots[..], |rows|, width);
    assert rows[..0] == [];
    NoRefs(store);
    for row := 0 to |rows|
      invariant |cells| == |RefsOf(store, rows[..row])|
      invariant Filling(store, refs, cells, slots[..], |rows|, width)
      invariant forall y: nat, x: nat :: y < row && x < width ==> Covered(shapes, Columns(cells), y, x)
    {
      RowStarts(store, rows, refs, cells, slots[..], width, row);
      var placed := PlaceRow(store, rows, refs, width, slots, cells, row);
      if placed.Err? {
        return Err(placed.error);
      }
      FillingFits(store, refs, placed.value, slots[..], |rows|, width);
      forall y: nat, x: nat | y < row && x < width
        ensures Covered(shapes, Columns(placed.value), y, x)
      {
        CoveredGrows(shapes, Columns(cells), Columns(placed.value), y, x);
      }
      cells := placed.value;
    }
    assert rows[..|rows|] == rows;
    AllPlaced(store, rows, width, slots[..], cells);
    return Ok((slots[..], cells));
  }

  lemma NoRefs(store: Store)
    ensures RefsOf(store, []) == []
  {}

  lemma FillingFits(store: Store, refs: seq<CellRef>, cells: seq<CellPlacement>, slots: seq<nat>, height: nat,
                    width: nat)
    requires Filling(store, refs, cells, slots, height, width)
    ensures |Columns(cells)| <= |ShapesOf(store, refs)|
  {}

  // ----- the identity index

  predicate SortedById(entries: seq<(NodeId, nat)>) {
    forall i, j :: 0 <= i < j < |entries| ==> entries[i].0 <= entries[j].0
  }

  // `sort_unstable_by_key` on the identity.
  function InsertEntry(sorted: seq<(NodeId, nat)>, entry: (NodeId, nat)): (r: seq<(NodeId, nat)>)
    ensures multiset(r) == multiset(sorted) + multiset{entry}
  {
    var n := |sorted| - 1;
    if sorted == [] || sorted[n].0 <= entry.0 then sorted + [entry]
    else
      assert sorted == sorted[..n] + [sorted[n]];
      InsertEntry(sorted[..n], entry) + [sorted[n]]
  }

  function SortEntries(entries: seq<(NodeId, nat)>): (r: seq<(NodeId, nat)>)
    ensures multiset(r) == multiset(entries)
  {
    if entries == [] then []
    else
      var n := |entries| - 1;
      assert entries == entries[..n] + [entries[n]];
      InsertEntry(SortEntries(entries[..n]), entries[n])
  }

  lemma {:induction false} InsertKeepsSorted(sorted: seq<(NodeId, nat)>, entry: (NodeId, nat))
    requires SortedById(sorted)
    ensures SortedById(InsertEntry(sorted, entry))
  {
    var n := |sorted| - 1;
    if !(sorted == [] || sorted[n].0 <= entry.0) {
      var rest := InsertEntry(sorted[..n], entry);
      InsertKeepsSorted(sorted[..n], entry);
      forall i | 0 <= i < |rest|
        ensures rest[i].0 <= sorted[n].0
      {
        assert rest[i] in multiset(rest);
        assert rest[i] == entry || rest[i] in sorted[..n];
      }
    }
  }

  lemma {:induction false} SortSorts(entries: seq<(NodeId, nat)>)
    ensures SortedById(SortEntries(entries))
  {
    if entries != [] {
      var n := |entries| - 1;
      SortSorts(entries[..n]);
      InsertKeepsSorted(SortEntries(entries[..n]), entries[n]);
    }
  }

  function Index(cells: seq<CellPlacement>): (r: seq<(NodeId, nat)>)
    ensures |r| == |cells|
    ensures forall k :: 0 <= k < |cells| ==> r[k] == (cells[k].cell, k)
  {
    seq(|cells|, k requires 0 <= k < |cells| => (cells[k].cell, k))
  }

  ghost predicate DistinctCells(cells: seq<CellPlacement>) {
    forall i, j :: 0 <= i < j < |cells| ==> cells[i].cell != cells[j].cell
  }

  // Each cell's identity leads to its place in the list, in strict identity order.
  ghost predicate Indexed(cells: seq<CellPlacement>, byId: seq<(NodeId, nat)>) {
    && (forall i, j :: 0 <= i < j < |byId| ==> byId[i].0 < byId[j].0)
    && (forall e :: e in byId <==> e.1 < |cells| && cells[e.1].cell == e.0)
  }

  lemma {:induction false} IndexMembers(cells: seq<CellPlacement>, e: (NodeId, nat))
    ensures e in SortEntries(Index(cells)) <==> e.1 < |cells| && cells[e.1].cell == e.0
  {
    var index := Index(cells);
    assert multiset(SortEntries(index)) == multiset(index);
    assert e in SortEntries(index) <==> e in multiset(SortEntries(index));
    assert e in multiset(index) <==> e in index;
    if e.1 < |cells| && cells[e.1].cell == e.0 {
      assert index[e.1] == e;
    }
  }

  lemma {:induction false} NeighboursDistinct(cells: seq<CellPlacement>)
    requires var s := SortEntries(Index(cells)); forall i :: 0 < i < |s| ==> s[i - 1].0 != s[i].0
    ensures Indexed(cells, SortEntries(Index(cells))) && DistinctCells(cells)
  {
    hide SortEntries, Index;
    var s := SortEntries(Index(cells));
    SortSorts(Index(cells));
    forall i, j | 0 <= i < j < |s|
      ensures s[i].0 < s[j].0
    {
      assert s[i].0 <= s[j - 1].0 <= s[j].0;
    }
    forall e
      ensures e in s <==> e.1 < |cells| && cells[e.1].cell == e.0
    {
      IndexMembers(cells, e);
    }
    forall i, j | 0 <= i < j < |cells|
      ensures cells[i].cell != cells[j].cell
    {
      assert (cells[i].cell, i) in s && (cells[j].cell, j) in s;
    }
  }

  lemma {:induction false} EqualNeighbours(cells: seq<CellPlacement>, i: nat)
    requires var s := SortEntries(Index(cells)); 0 < i < |s| && s[i - 1].0 == s[i].0
    ensures !DistinctCells(cells)
  {
    hide SortEntries, Index;
    var s := SortEntries(Index(cells));
    assert s[i - 1] in s && s[i] in s;
    IndexMembers(cells, s[i - 1]);
    IndexMembers(cells, s[i]);
    if s[i - 1].1 == s[i].1 {
      RepeatedEntry(cells, i);
    }
  }

  // Entries differ, so equal identities come from different cells.
  lemma {:induction false} RepeatedEntry(cells: seq<CellPlacement>, i: nat)
    requires var s := SortEntries(Index(cells)); 0 < i < |s|
    ensures var s := SortEntries(Index(cells)); s[i - 1] != s[i]
  {
    hide SortEntries;
    var s, index := SortEntries(Index(cells)), Index(cells);
    assert index[..|cells|] == index;
    OnceInIndex(cells, |cells|, s[i]);
    OccursTwice(s, i);
  }

  lemma OccursTwice(s: seq<(NodeId, nat)>, i: nat)
    requires 0 < i < |s|
    ensures s[i - 1] == s[i] ==> multiset(s)[s[i]] >= 2
  {
    assert s == s[..i - 1] + [s[i - 1], s[i]] + s[i + 1..];
  }

  lemma {:induction false} OnceInIndex(cells: seq<CellPlacement>, n: nat, e: (NodeId, nat))
    requires n <= |cells|
    ensures multiset(Index(cells)[..n])[e] <= if e.1 < n then 1 else 0
  {
    if n > 0 {
      OnceInIndex(cells, n - 1, e);
      var index := Index(cells);
      assert index[..n] == index[..n - 1] + [index[n - 1]];
    }
  }

  // ----- `TableGrid::from_store`

  ghost predicate DistinctRefs(refs: seq<CellRef>) {
    forall i, j :: 0 <= i < j < |refs| ==> refs[i].cell != refs[j].cell
  }

  // The table's rows and cells can be read, fit the budget, and tile a rectangle.
  ghost predicate Acceptable(store: Store, table: NodeId, spent: Totals) {
    && table in store && store[table].kind.Table? && store[table].content.Children?
    && var rows := store[table].content.children;
      && rows != [] && Readable(store, rows)
      && var refs := RefsOf(store, rows); var width := FirstWidth(store, rows);
        && width > 0 && spent.Plus(|rows|, width, |refs|).WithinCaps()
        && DistinctRefs(refs)
        && exists tiling :: Tiles(ShapesOf(store, refs), tiling, |rows|, width)
  }

  // A grid that records the table's one tiling.
  ghost predicate GridOf(store: Store, table: NodeId, grid: TableGrid) {
    && table in store && store[table].content.Children?
    && var rows := store[table].content.children;
      && rows != [] && Readable(store, rows)
      && grid.table == table && grid.rows == rows && grid.columns == FirstWidth(store, rows)
      && Filled(store, rows, grid.columns, grid.slots, grid.cells)
      && Indexed(grid.cells, grid.byId)
  }

  method CountCells(store: Store, rows: seq<NodeId>) returns (r: Result<nat>)
    ensures r.Ok? ==> r.value == |RefsOf(store, rows)| <= MAX_PHYSICAL_CELLS
    ensures r.Ok? ==> forall i :: 0 <= i < |rows| ==> RowCells(store, rows[i]).Ok?
    ensures r.Err? ==> !Readable(store, rows) || |RefsOf(store, rows)| > MAX_PHYSICAL_CELLS
  {
    hide RowCells, RefsOf, CellSpans;
    var count := 0;
    NoRefs(store);
    assert rows[..0] == [];
    for i := 0 to |rows|
      invariant count == |RefsOf(store, rows[..i])| <= MAX_PHYSICAL_CELLS
      invariant forall j :: 0 <= j < i ==> RowCells(store, rows[j]).Ok?
    {
      var cells :- RowCells(store, rows[i]);
      RowEnd(store, rows, i);
      count := count + |cells|;
      if count > MAX_PHYSICAL_CELLS {
        return Err(TableResourceLimit);
      }
    }
    assert rows[..|rows|] == rows;
    return Ok(count);
  }

  method SumFirstRow(store: Store, rows: seq<NodeId>) returns (r: Result<nat>)
    requires rows != [] && RowCells(store, rows[0]).Ok?
    ensures r.Ok? ==> r.value == FirstWidth(store, rows)
    ensures r.Err? ==> !Readable(store, rows) || FirstWidth(store, rows) >= USIZE_LIMIT
  {
    hide RowCells, CellSpans, RefsOf, SumColspans;
    var cells := RowCells(store, rows[0]).value;
    ghost var shapes := ShapesOf(store, RowRefs(store, 0, rows[0]));
    var columns := 0;
    NoColumns();
    assert shapes[..0] == [];
    for i := 0 to |cells|
      invariant columns == SumColspans(shapes[..i])
    {
      RefAt(store, rows, 0, i);
      assert rows[..0] == [];
      NoRefs(store);
      var spans :- CellSpans(store, cells[i]);
      ShapeIs(store, RowRefs(store, 0, rows[0])[i]);
      SumPush(shapes, i);
      var sum := CheckedAdd(columns, spans.1);
      if sum.None? {
        SumGrows(shapes, i + 1);
        return Err(TableResourceLimit);
      }
      columns := sum.value;
    }
    assert shapes[..|cells|] == shapes;
    return Ok(columns);
  }

  lemma NoColumns()
    ensures SumColspans([]) == 0
  {}

  lemma SumPush(shapes: seq<Shape>, i: nat)
    requires i < |shapes|
    ensures SumColspans(shapes[..i + 1]) == SumColspans(shapes[..i]) + shapes[i].colspan
  {
    assert shapes[..i + 1][..i] == shapes[..i];
  }

  lemma {:induction false} SumGrows(shapes: seq<Shape>, i: nat)
    requires i <= |shapes|
    ensures SumColspans(shapes[..i]) <= SumColspans(shapes)
    decreases |shapes| - i
  {
    if i == |shapes| {
      assert shapes[..i] == shapes;
    } else {
      SumPush(shapes, i);
      SumGrows(shapes, i + 1);
    }
  }

  // Succeeds exactly on acceptable tables, with the grid of the one tiling;
  // the reservation is charged to the shared budget.
  method FromStore(store: Store, table: NodeId, budget: TableGridBudget) returns (r: Result<TableGrid>)
    requires budget.Spent().WithinCaps()
    modifies budget
    ensures budget.Spent().WithinCaps()
    ensures r.Ok? <==> Acceptable(store, table, old(budget.Spent()))
    ensures r.Ok? ==> GridOf(store, table, r.value)
    ensures r.Ok? ==> budget.Spent() == old(budget.Spent()).Plus(|r.value.rows|, r.value.columns, |r.value.cells|)
  {
    hide Readable, RefsOf, RowCells, FirstWidth, ShapesOf, Filled, Indexed, SortEntries, Tiles, CellSpans, NoTiling;
    if table !in store {
      return Err(UnknownNode);
    }
    if !store[table].kind.Table? {
      return Err(InvalidTableStructure);
    }
    if !store[table].content.Children? {
      return Err(InvalidTableStructure);
    }
    var rows := store[table].content.children;
    if rows == [] {
      return Err(InvalidTableStructure);
    }
    ghost var spent := budget.Spent();
    if FirstWidth(store, rows) > 0 {
      TooManySlots(spent, |rows|, FirstWidth(store, rows), |RefsOf(store, rows)|);
    }
    if |rows| > MAX_LOGICAL_SLOTS {
      return Err(TableResourceLimit);
    }
    var cellCount :- CountCells(store, rows);
    var columns :- SumFirstRow(store, rows);
    if columns == 0 {
      return Err(InvalidTableStructure);
    }
    var slotCount :- budget.Reserve(|rows|, columns, cellCount);
    var filled := FillGrid(store, rows, columns);
    if filled.Err? {
      NoTilingExists(ShapesOf(store, RefsOf(store, rows)), |rows|, columns);
      return Err(filled.error);
    }
    var (slots, cells) := filled.value;
    FilledCells(store, rows, columns, slots, cells);
    var byId := SortEntries(Index(cells));
    var repeated := RepeatsId(cells, byId);
    if repeated {
      return Err(MultipleNodeParents);
    }
    return Ok(TableGrid(table, columns, rows, slots, cells, byId));
  }

  // `windows(2)` over the index looks for one cell listed twice.
  method RepeatsId(ghost cells: seq<CellPlacement>, byId: seq<(NodeId, nat)>) returns (repeated: bool)
    requires byId == SortEntries(Index(cells))
    ensures repeated <==> !DistinctCells(cells)
    ensures !repeated ==> Indexed(cells, byId)
  {
    hide SortEntries;
    var i := 1;
    while i < |byId|
      invariant forall j :: 0 < j < i && j < |byId| ==> byId[j - 1].0 != byId[j].0
    {
      if byId[i - 1].0 == byId[i].0 {
        EqualNeighbours(cells, i);
        return true;
      }
      i := i + 1;
    }
    NeighboursDistinct(cells);
    return false;
  }

  lemma NoTilingExists(shapes: seq<Shape>, height: nat, width: nat)
    ensures NoTiling(shapes, height, width) <==> !exists tiling :: Tiles(shapes, tiling, height, width)
  {
    hide Tiles;
  }

  lemma FilledCells(store: Store, rows: seq<NodeId>, width: nat, slots: seq<nat>, cells: seq<CellPlacement>)
    requires Filled(store, rows, width, slots, cells)
    ensures |cells| == |RefsOf(store, rows)|
    ensures DistinctCells(cells) <==> DistinctRefs(RefsOf(store, rows))
    ensures exists tiling :: Tiles(ShapesOf(store, RefsOf(store, rows)), tiling, |rows|, width)
  {
    hide RefsOf, Tiles, ShapeOf, SlotsHold;
    var refs := RefsOf(store, rows);
    assert forall k :: 0 <= k < |cells| ==> cells[k].cell == refs[k].cell;
    assert Tiles(ShapesOf(store, refs), Columns(cells), |rows|, width);
  }

  lemma TooManySlots(spent: Totals, rows: nat, columns: nat, cells: nat)
    requires columns > 0 && rows > 0
    ensures rows > MAX_LOGICAL_SLOTS || columns >= USIZE_LIMIT || cells > MAX_PHYSICAL_CELLS ==>
      !spent.Plus(rows, columns, cells).WithinCaps()
  {
    assert rows * columns >= rows;
    assert rows * columns >= columns;
  }
}
