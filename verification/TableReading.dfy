// What a grid takes from the stored rows and from the raw cell attributes
// (crates/xiaomu-core/src/document/table_attrs.rs, table_grid.rs).
module TableReading {
  import opened Wrappers
  import opened Content
  import opened Nodes
  import opened Tiling
  import opened TableGrid

  // ----- raw attributes

  // A span attribute is missing or a positive integer.
  predicate SpanStated(attrs: NodeAttrs, key: string) {
    key in attrs ==> attrs[key].IntegerValue? && attrs[key].number > 0
  }

  // What it says; one when it is missing.
  function StatedSpan(attrs: NodeAttrs, key: string): nat
    requires SpanStated(attrs, key)
  {
    if key in attrs then attrs[key].number else 1
  }

  // Column widths are missing, null, or one non-negative integer a column.
  predicate WidthsStated(attrs: NodeAttrs)
    requires SpanStated(attrs, "colspan")
  {
    "colwidth" in attrs && !attrs["colwidth"].NullValue? ==>
      && attrs["colwidth"].ListValue? && |attrs["colwidth"].items| == StatedSpan(attrs, "colspan")
      && forall w :: w in attrs["colwidth"].items ==> w.IntegerValue? && w.number >= 0
  }

  predicate GeometryStated(attrs: NodeAttrs) {
    SpanStated(attrs, "rowspan") && SpanStated(attrs, "colspan") && WidthsStated(attrs)
  }

  lemma GeometryRead(attrs: NodeAttrs)
    ensures CellGeometry(attrs).Ok? <==> GeometryStated(attrs)
    ensures CellGeometry(attrs).Ok? ==>
      CellGeometry(attrs).value == (StatedSpan(attrs, "rowspan"), StatedSpan(attrs, "colspan"))
    ensures CellGeometry(attrs).Err? ==> CellGeometry(attrs).error == InvalidTableAttrs
  {
    if "colwidth" in attrs && attrs["colwidth"].ListValue? {
      var items := attrs["colwidth"].items;
      assert (forall i :: 0 <= i < |items| ==> IsWidth(items[i])) <==> forall w :: w in items ==> IsWidth(w);
    }
  }

  // ----- rows and cells

  // A stored row with its list of cells.
  predicate StoredRow(store: Store, row: NodeId) {
    row in store && store[row].kind == TableRow && store[row].content.Children?
  }

  // A stored cell or header cell that holds something and states its geometry.
  predicate StoredCell(store: Store, cell: NodeId) {
    && cell in store && (store[cell].kind == TableCell || store[cell].kind == TableHeader)
    && store[cell].content.Children? && store[cell].content.children != []
    && GeometryStated(store[cell].attrs)
  }

  lemma RowRead(store: Store, row: NodeId)
    ensures RowCells(store, row).Ok? <==> StoredRow(store, row)
    ensures RowCells(store, row).Ok? ==> RowCells(store, row).value == store[row].content.children
  {}

  lemma CellRead(store: Store, cell: NodeId)
    ensures CellSpans(store, cell).Ok? <==> StoredCell(store, cell)
    ensures CellSpans(store, cell).Ok? ==>
      CellSpans(store, cell).value
        == (StatedSpan(store[cell].attrs, "rowspan"), StatedSpan(store[cell].attrs, "colspan"))
  {
    hide CellGeometry, GeometryStated;
    if cell in store {
      GeometryRead(store[cell].attrs);
    }
  }

  predicate RowsStored(store: Store, rows: seq<NodeId>) {
    forall r :: 0 <= r < |rows| ==> StoredRow(store, rows[r])
  }

  // The `i`-th child of the `r`-th row.
  predicate Stands(store: Store, rows: seq<NodeId>, r: nat, i: nat, cell: NodeId) {
    && r < |rows| && StoredRow(store, rows[r])
    && i < |store[rows[r]].content.children| && store[rows[r]].content.children[i] == cell
  }

  predicate RefStands(store: Store, rows: seq<NodeId>, ref: CellRef) {
    Stands(store, rows, ref.row, ref.index, ref.cell) && ref.rowId == rows[ref.row]
  }

  predicate ListedBefore(a: CellRef, b: CellRef) {
    a.row < b.row || (a.row == b.row && a.index < b.index)
  }

  predicate IsRef(ref: CellRef, r: nat, i: nat, cell: NodeId) {
    ref.row == r && ref.index == i && ref.cell == cell
  }

  lemma RowRefsAre(store: Store, r: nat, row: NodeId)
    requires StoredRow(store, row)
    ensures var children := store[row].content.children; var refs := RowRefs(store, r, row);
      |refs| == |children| && forall i :: 0 <= i < |refs| ==> refs[i] == CellRef(children[i], r, row, i)
  {}

  predicate Listed(refs: seq<CellRef>, r: nat, i: nat, cell: NodeId) {
    exists k :: 0 <= k < |refs| && IsRef(refs[k], r, i, cell)
  }

  // The list of cells is the rows' children, row by row, each where it stands.
  lemma {:induction false} RefsAreChildren(store: Store, rows: seq<NodeId>)
    requires RowsStored(store, rows)
    ensures forall k :: 0 <= k < |RefsOf(store, rows)| ==> RefStands(store, rows, RefsOf(store, rows)[k])
    ensures forall i, j :: 0 <= i < j < |RefsOf(store, rows)| ==>
      ListedBefore(RefsOf(store, rows)[i], RefsOf(store, rows)[j])
    ensures forall r, i, c :: Stands(store, rows, r, i, c) ==>
      Listed(RefsOf(store, rows), r, i, c)
  {
    hide RowRefs;
    if rows != [] {
      var n := |rows| - 1;
      var front, last := RefsOf(store, rows[..n]), RowRefs(store, n, rows[n]);
      var refs: seq<CellRef> := front + last;
      RowRefsAre(store, n, rows[n]);
      RefsAreChildren(store, rows[..n]);
      forall k | 0 <= k < |front|
        ensures front[k].row < n && RefStands(store, rows, front[k])
      {
        assert RefStands(store, rows[..n], front[k]);
      }
      forall r, i, c | Stands(store, rows, r, i, c)
        ensures Listed(refs, r, i, c)
      {
        if r == n {
          assert IsRef(refs[|front| + i], r, i, c);
        } else {
          assert Stands(store, rows[..n], r, i, c);
          var k :| 0 <= k < |front| && IsRef(front[k], r, i, c);
          assert IsRef(refs[k], r, i, c);
        }
      }
    }
  }

  // A table can be read exactly when its rows and all their cells can.
  lemma {:induction false} ReadableMeans(store: Store, rows: seq<NodeId>)
    ensures Readable(store, rows) <==>
      RowsStored(store, rows) && forall r, i, c :: Stands(store, rows, r, i, c) ==> StoredCell(store, c)
  {
    hide RowCells, CellSpans, RefsOf, StoredCell, Stands, StoredRow;
    forall r | 0 <= r < |rows|
      ensures RowCells(store, rows[r]).Ok? <==> StoredRow(store, rows[r])
    {
      RowRead(store, rows[r]);
    }
    if RowsStored(store, rows) {
      CellsMean(store, rows);
    }
  }

  lemma {:induction false} CellsMean(store: Store, rows: seq<NodeId>)
    requires RowsStored(store, rows)
    ensures (forall k :: 0 <= k < |RefsOf(store, rows)| ==> CellSpans(store, RefsOf(store, rows)[k].cell).Ok?)
      <==> forall r, i, c :: Stands(store, rows, r, i, c) ==> StoredCell(store, c)
  {
    hide RowCells, CellSpans, RefsOf, StoredCell, Stands, StoredRow;
    RefsAreChildren(store, rows);
    var refs := RefsOf(store, rows);
    forall k | 0 <= k < |refs|
      ensures CellSpans(store, refs[k].cell).Ok? <==> StoredCell(store, refs[k].cell)
      ensures Stands(store, rows, refs[k].row, refs[k].index, refs[k].cell)
    {
      CellRead(store, refs[k].cell);
      assert RefStands(store, rows, refs[k]);
    }
    forall r, i, c | Stands(store, rows, r, i, c)
      ensures exists k :: 0 <= k < |refs| && refs[k].cell == c
    {
      assert Listed(refs, r, i, c);
    }
  }

  // A table is accepted exactly when it is stored with readable rows and cells,
  // its totals stay under the three caps, no cell is listed twice, and the cells
  // tile its rows at the width of the first.
  lemma {:induction false} AcceptableMeans(store: Store, table: NodeId, spent: Totals)
    ensures Acceptable(store, table, spent) <==>
      && table in store && store[table].kind == Table && store[table].content.Children?
      && var rows := store[table].content.children;
        && rows != [] && RowsStored(store, rows)
        && (forall r, i, c :: Stands(store, rows, r, i, c) ==> StoredCell(store, c))
        && var count, width := |RefsOf(store, rows)|, FirstWidth(store, rows);
          && width > 0 && spent.slots + |rows| * width <= 1_000_000 && spent.cells + count <= 100_000
          && spent.bytes + 4 * (|rows| * width) + 72 * count + 8 * |rows| <= 67_108_864
          && DistinctRefs(RefsOf(store, rows))
          && exists tiling :: Tiles(ShapesOf(store, RefsOf(store, rows)), tiling, |rows|, width)
  {
    hide Readable, RowsStored, Stands, StoredCell, RefsOf, FirstWidth, ShapesOf, Tiles, DistinctRefs;
    if table in store && store[table].content.Children? {
      ReadableMeans(store, store[table].content.children);
    }
  }

  // ----- the grid

  // Every placement of a built grid is a child of its row, in reading order and
  // all of them, spanning what its own attributes say.
  lemma {:induction false} GridReadsCells(store: Store, table: NodeId, grid: TableGrid)
    requires GridOf(store, table, grid)
    ensures table in store && store[table].content == Children(grid.rows) && RowsStored(store, grid.rows)
    ensures forall k :: 0 <= k < |grid.cells| ==>
      var cell := grid.cells[k];
      && Stands(store, grid.rows, cell.row, cell.physicalIndex, cell.cell) && cell.rowId == grid.rows[cell.row]
      && StoredCell(store, cell.cell)
      && cell.rowspan
        == (if "rowspan" in store[cell.cell].attrs then store[cell.cell].attrs["rowspan"].number else 1)
      && cell.colspan
        == (if "colspan" in store[cell.cell].attrs then store[cell.cell].attrs["colspan"].number else 1)
    ensures forall i, j :: 0 <= i < j < |grid.cells| ==>
      || grid.cells[i].row < grid.cells[j].row
      || (grid.cells[i].row == grid.cells[j].row && grid.cells[i].physicalIndex < grid.cells[j].physicalIndex)
    ensures forall r, i, c :: Stands(store, grid.rows, r, i, c) ==>
      exists k :: 0 <= k < |grid.cells| && grid.cells[k].row == r && grid.cells[k].physicalIndex == i
  {
    hide RowCells, CellSpans, RefsOf, StoredCell, Tiles, SlotsHold, Indexed, FirstWidth, Readable, Stands;
    var rows, cells := grid.rows, grid.cells;
    var refs := RefsOf(store, rows);
    ReadableMeans(store, rows);
    RefsAreChildren(store, rows);
    forall k | 0 <= k < |cells|
      ensures cells[k] == PlacementOf(refs[k], ShapeOf(store, refs[k]), cells[k].column)
      ensures StoredCell(store, refs[k].cell) && refs[k].cell in store
      ensures var attrs := store[refs[k].cell].attrs;
        && SpanStated(attrs, "rowspan") && SpanStated(attrs, "colspan")
        && cells[k].rowspan == StatedSpan(attrs, "rowspan") && cells[k].colspan == StatedSpan(attrs, "colspan")
    {
      var ref := refs[k];
      assert RefStands(store, rows, ref);
      CellRead(store, ref.cell);
      CellStates(store, ref.cell);
    }
    forall r, i, c | Stands(store, grid.rows, r, i, c)
      ensures exists k :: 0 <= k < |cells| && cells[k].row == r && cells[k].physicalIndex == i
    {
      assert Listed(refs, r, i, c);
      var k :| 0 <= k < |refs| && IsRef(refs[k], r, i, c);
      assert cells[k].row == r;
    }
  }

  lemma CellStates(store: Store, cell: NodeId)
    requires StoredCell(store, cell)
    ensures cell in store && SpanStated(store[cell].attrs, "rowspan") && SpanStated(store[cell].attrs, "colspan")
  {}
}
