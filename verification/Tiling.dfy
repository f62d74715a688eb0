// Rectangle tilings in reading order: what a table's cells have to form.
module Tiling {

  // One cell: the physical row holding it and its extent.
  datatype Shape = Shape(row: nat, rowspan: nat, colspan: nat)

  predicate Covers(shape: Shape, column: nat, y: nat, x: nat) {
    shape.row <= y < shape.row + shape.rowspan && column <= x < column + shape.colspan
  }

  // Cells listed row by row, each of positive extent.
  predicate ReadingOrder(shapes: seq<Shape>) {
    && (forall i, j :: 0 <= i < j < |shapes| ==> shapes[i].row <= shapes[j].row)
    && (forall k :: 0 <= k < |shapes| ==> shapes[k].rowspan > 0 && shapes[k].colspan > 0)
  }

  predicate Fits(shapes: seq<Shape>, columns: seq<nat>, height: nat, width: nat) {
    |columns| <= |shapes| && forall k :: 0 <= k < |columns| ==>
      shapes[k].row + shapes[k].rowspan <= height && columns[k] + shapes[k].colspan <= width
  }

  // Cells of one row run from left to right.
  predicate LeftToRight(shapes: seq<Shape>, columns: seq<nat>) {
    |columns| <= |shapes| && forall i, j :: 0 <= i < j < |columns| && shapes[i].row == shapes[j].row ==>
      columns[i] < columns[j]
  }

  ghost predicate Disjoint(shapes: seq<Shape>, columns: seq<nat>) {
    |columns| <= |shapes| && forall i, j, y, x :: 0 <= i < j < |columns| && Covers(shapes[i], columns[i], y, x) ==>
      !Covers(shapes[j], columns[j], y, x)
  }

  predicate Covered(shapes: seq<Shape>, columns: seq<nat>, y: nat, x: nat) {
    |columns| <= |shapes| && exists k :: 0 <= k < |columns| && Covers(shapes[k], columns[k], y, x)
  }

  // Columns for all cells that tile height x width without overlap or hole.
  ghost predicate Tiles(shapes: seq<Shape>, columns: seq<nat>, height: nat, width: nat) {
    && |columns| == |shapes|
    && Fits(shapes, columns, height, width) && LeftToRight(shapes, columns) && Disjoint(shapes, columns)
    && (forall y: nat, x: nat :: y < height && x < width ==> Covered(shapes, columns, y, x))
  }

  // ----- the filler's next origin is forced

  // `free` is the first slot of the row not covered by the cells placed so far.
  predicate FirstFree(shapes: seq<Shape>, columns: seq<nat>, y: nat, free: nat) {
    !Covered(shapes, columns, y, free) && forall x: nat :: x < free ==> Covered(shapes, columns, y, x)
  }

  lemma CoveredPrefix(shapes: seq<Shape>, columns: seq<nat>, k: nat, y: nat, x: nat)
    requires k <= |columns| <= |shapes|
    ensures Covered(shapes, columns[..k], y, x) <==> exists i :: 0 <= i < k && Covers(shapes[i], columns[i], y, x)
  {
    var front := columns[..k];
    assert forall i :: 0 <= i < k ==> front[i] == columns[i];
  }

  // In any tiling that agrees so far, the next cell starts at the first free slot of its row.
  lemma {:induction false} NextIsForced(shapes: seq<Shape>, columns: seq<nat>, height: nat, width: nat, k: nat,
                                        free: nat)
    requires ReadingOrder(shapes) && Tiles(shapes, columns, height, width) && k < |shapes|
    requires FirstFree(shapes, columns[..k], shapes[k].row, free)
    ensures columns[k] == free && free + shapes[k].colspan <= width
  {
    hide Covers, Covered;
    var row := shapes[k].row;
    StartsInside(shapes, columns, height, width, k);
    CoveredPrefix(shapes, columns, k, row, free);
    if columns[k] < free {
      CoveredPrefix(shapes, columns, k, row, columns[k]);
    }
    if free < columns[k] {
      assert Covered(shapes, columns, row, free);
      LaterOwner(shapes, columns, k, free);
    }
  }

  lemma StartsInside(shapes: seq<Shape>, columns: seq<nat>, height: nat, width: nat, k: nat)
    requires ReadingOrder(shapes) && Tiles(shapes, columns, height, width) && k < |shapes|
    ensures shapes[k].row < height && columns[k] + shapes[k].colspan <= width
    ensures Covers(shapes[k], columns[k], shapes[k].row, columns[k])
  {
    hide Disjoint, Covered;
  }

  // A slot left of the next cell in its row has an earlier owner.
  lemma {:induction false} LaterOwner(shapes: seq<Shape>, columns: seq<nat>, k: nat, x: nat)
    requires ReadingOrder(shapes) && LeftToRight(shapes, columns) && k < |columns| == |shapes|
    requires Covered(shapes, columns, shapes[k].row, x) && x < columns[k]
    ensures exists i :: 0 <= i < k && Covers(shapes[i], columns[i], shapes[k].row, x)
  {
    var m :| 0 <= m < |columns| && Covers(shapes[m], columns[m], shapes[k].row, x);
  }

  // A row all of whose cells are placed has no free slot.
  lemma {:induction false} RowIsFull(shapes: seq<Shape>, columns: seq<nat>, height: nat, width: nat, k: nat, y: nat,
                                     x: nat)
    requires ReadingOrder(shapes) && Tiles(shapes, columns, height, width) && k <= |shapes|
    requires y < height && x < width && forall i :: k <= i < |shapes| ==> shapes[i].row > y
    ensures Covered(shapes, columns[..k], y, x)
  {
    assert Covered(shapes, columns, y, x);
    var m :| 0 <= m < |columns| && Covers(shapes[m], columns[m], y, x);
    CoveredPrefix(shapes, columns, k, y, x);
  }

  // ----- one tiling at most

  // Some first free slot exists within a row that is not all covered.
  lemma {:induction false} FirstFreeExists(shapes: seq<Shape>, columns: seq<nat>, y: nat, x: nat) returns (free: nat)
    requires !Covered(shapes, columns, y, x)
    ensures free <= x && FirstFree(shapes, columns, y, free)
  {
    hide Covered;
    free := 0;
    while Covered(shapes, columns, y, free)
      invariant free <= x
      invariant forall z: nat :: z < free ==> Covered(shapes, columns, y, z)
      decreases x - free
    {
      free := free + 1;
    }
  }

  lemma {:induction false} NotCoveredFar(shapes: seq<Shape>, columns: seq<nat>, width: nat, y: nat)
    requires |columns| <= |shapes| && forall k :: 0 <= k < |columns| ==> columns[k] + shapes[k].colspan <= width
    ensures !Covered(shapes, columns, y, width)
  {}

  // Cells tile a rectangle in at most one way.
  lemma {:induction false} TilingIsUnique(shapes: seq<Shape>, a: seq<nat>, b: seq<nat>, height: nat, width: nat)
    requires ReadingOrder(shapes) && Tiles(shapes, a, height, width) && Tiles(shapes, b, height, width)
    ensures a == b
  {
    hide Covered, FirstFree;
    PrefixesAgree(shapes, a, b, height, width, |shapes|);
    assert a[..|shapes|] == a && b[..|shapes|] == b;
  }

  lemma {:induction false} PrefixesAgree(shapes: seq<Shape>, a: seq<nat>, b: seq<nat>, height: nat, width: nat, k: nat)
    requires ReadingOrder(shapes) && Tiles(shapes, a, height, width) && Tiles(shapes, b, height, width) && k <= |shapes|
    ensures a[..k] == b[..k]
  {
    hide Covered, FirstFree, Disjoint, LeftToRight;
    if k > 0 {
      PrefixesAgree(shapes, a, b, height, width, k - 1);
      assert forall i :: 0 <= i < k - 1 ==> a[..k - 1][i] == a[i];
      NotCoveredFar(shapes, a[..k - 1], width, shapes[k - 1].row);
      var free := FirstFreeExists(shapes, a[..k - 1], shapes[k - 1].row, width);
      NextIsForced(shapes, a, height, width, k - 1, free);
      NextIsForced(shapes, b, height, width, k - 1, free);
      assert a[..k] == a[..k - 1] + [a[k - 1]] && b[..k] == b[..k - 1] + [b[k - 1]];
    }
  }

  // ----- the width of a tiling is the width of its first row

  function SumColspans(shapes: seq<Shape>): nat {
    if shapes == [] then 0 else SumColspans(shapes[..|shapes| - 1]) + shapes[|shapes| - 1].colspan
  }

  // The first row's cells lie side by side from the left edge.
  lemma {:induction false} FirstRowSideBySide(shapes: seq<Shape>, columns: seq<nat>, height: nat, width: nat, k: nat)
    requires ReadingOrder(shapes) && Tiles(shapes, columns, height, width) && k <= |shapes|
    requires forall i :: 0 <= i < k ==> shapes[i].row == 0
    ensures forall x: nat :: Covered(shapes, columns[..k], 0, x) <==> x < SumColspans(shapes[..k])
    ensures SumColspans(shapes[..k]) <= width
  {
    hide Covered, Disjoint, LeftToRight;
    if k == 0 {
      assert forall x: nat :: !Covered(shapes, columns[..0], 0, x) by { NothingCovered(shapes, columns[..0]); }
    } else {
      FirstRowSideBySide(shapes, columns, height, width, k - 1);
      var sum := SumColspans(shapes[..k - 1]);
      assert FirstFree(shapes, columns[..k - 1], 0, sum);
      NextIsForced(shapes, columns, height, width, k - 1, sum);
      assert shapes[..k][..k - 1] == shapes[..k - 1];
      forall x: nat
        ensures Covered(shapes, columns[..k], 0, x) <==> x < SumColspans(shapes[..k])
      {
        OneMoreCovers(shapes, columns, k - 1, 0, x);
      }
    }
  }

  lemma NothingCovered(shapes: seq<Shape>, columns: seq<nat>)
    requires columns == []
    ensures forall y: nat, x: nat :: !Covered(shapes, columns, y, x)
  {}

  lemma OneMoreCovers(shapes: seq<Shape>, columns: seq<nat>, k: nat, y: nat, x: nat)
    requires k < |columns| <= |shapes|
    ensures Covered(shapes, columns[..k + 1], y, x) <==>
      Covered(shapes, columns[..k], y, x) || Covers(shapes[k], columns[k], y, x)
  {
    hide Covers;
    CoveredPrefix(shapes, columns, k, y, x);
    CoveredPrefix(shapes, columns, k + 1, y, x);
  }

  // Whatever width the cells tile, it is the summed width of the first row.
  lemma {:induction false} WidthIsForced(shapes: seq<Shape>, columns: seq<nat>, height: nat, width: nat, k: nat)
    requires ReadingOrder(shapes) && Tiles(shapes, columns, height, width) && k <= |shapes| && height > 0
    requires (forall i :: 0 <= i < k ==> shapes[i].row == 0) && (forall i :: k <= i < |shapes| ==> shapes[i].row > 0)
    ensures width == SumColspans(shapes[..k])
  {
    hide Covered, Disjoint, LeftToRight, Tiles;
    FirstRowSideBySide(shapes, columns, height, width, k);
    var sum := SumColspans(shapes[..k]);
    if sum < width {
      RowIsFull(shapes, columns, height, width, k, 0, sum);
    }
  }
}
