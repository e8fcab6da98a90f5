/** Where a table's cells lie on the page: _uniform_edges and _get_cell_bbox_pair
    of worker/app/pipeline/document_parser.py. Coordinates are reals. */
module TableGeometry {
  import opened MinMax
  import opened Options
  import opened TableHtml

  /** `row_count`: as many rows as the cells reach, none without cells. */
  function RowCount(cells: seq<Cell>): nat {
    if cells == [] then 0 else Max(RowCount(cells[1..]), cells[0].row + cells[0].rowSpan)
  }

  /** `col_count`. */
  function ColCount(cells: seq<Cell>): nat {
    if cells == [] then 0 else Max(ColCount(cells[1..]), cells[0].col + cells[0].colSpan)
  }

  /** No cell reaches past the counts, and some cell reaches each of them. */
  lemma {:induction false} CountsReached(cells: seq<Cell>)
    ensures forall c <- cells :: c.row + c.rowSpan <= RowCount(cells) && c.col + c.colSpan <= ColCount(cells)
    ensures cells != [] ==> exists c <- cells :: c.row + c.rowSpan == RowCount(cells)
    ensures cells != [] ==> exists c <- cells :: c.col + c.colSpan == ColCount(cells)
  {
    if cells != [] {
      CountsReached(cells[1..]);
      assert cells[0] in cells;
      assert forall c <- cells[1..] :: c in cells;
    }
  }

  /** The counts depend on which cells there are, not on their order. */
  lemma CountsOfSameCells(a: seq<Cell>, b: seq<Cell>)
    requires forall c :: c in a <==> c in b
    ensures RowCount(a) == RowCount(b) && ColCount(a) == ColCount(b)
  {
    CountsReached(a);
    CountsReached(b);
    assert a != [] ==> a[0] in b;
    assert b != [] ==> b[0] in a;
  }

  type Box = (real, real, real, real)

  function EdgeAt(lo: real, hi: real, count: int, index: nat): real
    requires count > 0
  {
    lo + index as real * ((hi - lo) / count as real)
  }

  /** `_uniform_edges`: the boundaries of `count` equal parts. */
  function UniformEdges(lo: real, hi: real, count: int): (edges: seq<real>)
    ensures |edges| == if count <= 0 then 2 else count + 1
  {
    if count <= 0 then [lo, hi]
    else seq(count + 1, index requires 0 <= index <= count => EdgeAt(lo, hi, count, index))
  }

  /** The first edge is the lower end, the last the upper, and they do not decrease. */
  lemma {:induction false} EdgesRise(lo: real, hi: real, count: int, i: nat, j: nat)
    requires count > 0 && lo <= hi && i <= j <= count
    ensures EdgeAt(lo, hi, count, 0) == lo && EdgeAt(lo, hi, count, count) == hi
    ensures lo <= EdgeAt(lo, hi, count, i) <= EdgeAt(lo, hi, count, j) <= hi
    ensures lo < hi && i < j ==> EdgeAt(lo, hi, count, i) < EdgeAt(lo, hi, count, j)
  {
    var step := (hi - lo) / count as real;
    assert count as real * step == hi - lo;
    ScaledOrder(0.0, i as real, step);
    ScaledOrder(i as real, j as real, step);
    ScaledOrder(j as real, count as real, step);
  }

  lemma ScaledOrder(x: real, y: real, step: real)
    requires x <= y && step >= 0.0
    ensures x * step <= y * step
    ensures x < y && step > 0.0 ==> x * step < y * step
  {
    assert y * step - x * step == (y - x) * step;
  }

  /** A cell's share of the table's box. */
  function DerivedBox(cells: seq<Cell>, box: Box, cell: Cell): Box
    requires cell in cells && cell.Valid()
  {
    CountsReached(cells);
    var xs := UniformEdges(box.0, box.2, ColCount(cells));
    var ys := UniformEdges(box.1, box.3, RowCount(cells));
    (xs[cell.col], ys[cell.row], xs[cell.col + cell.colSpan], ys[cell.row + cell.rowSpan])
  }

  /** It lies inside the table's box, and has an area if the table has one. */
  lemma {:induction false} DerivedBoxInside(cells: seq<Cell>, box: Box, cell: Cell)
    requires cell in cells && cell.Valid() && box.0 <= box.2 && box.1 <= box.3
    ensures var d := DerivedBox(cells, box, cell);
            && box.0 <= d.0 <= d.2 <= box.2 && box.1 <= d.1 <= d.3 <= box.3
            && (box.0 < box.2 ==> d.0 < d.2) && (box.1 < box.3 ==> d.1 < d.3)
  {
    CountsReached(cells);
    EdgesRise(box.0, box.2, ColCount(cells), cell.col, cell.col + cell.colSpan);
    EdgesRise(box.1, box.3, RowCount(cells), cell.row, cell.row + cell.rowSpan);
  }

  /** Cells that share no slot get boxes that share no area. */
  lemma {:induction false} DerivedBoxesDisjoint(cells: seq<Cell>, box: Box, a: Cell, b: Cell)
    requires a in cells && b in cells && a.Valid() && b.Valid() && box.0 <= box.2 && box.1 <= box.3
    requires forall r, c :: !(a.Covers(r, c) && b.Covers(r, c))
    ensures var d, e := DerivedBox(cells, box, a), DerivedBox(cells, box, b);
            d.2 <= e.0 || e.2 <= d.0 || d.3 <= e.1 || e.3 <= d.1
  {
    CountsReached(cells);
    var r := Max(a.row, b.row);
    var c := Max(a.col, b.col);
    assert !(a.Covers(r, c) && b.Covers(r, c));
    if a.col + a.colSpan <= b.col {
      EdgesRise(box.0, box.2, ColCount(cells), a.col + a.colSpan, b.col);
    } else if b.col + b.colSpan <= a.col {
      EdgesRise(box.0, box.2, ColCount(cells), b.col + b.colSpan, a.col);
    } else if a.row + a.rowSpan <= b.row {
      EdgesRise(box.1, box.3, RowCount(cells), a.row + a.rowSpan, b.row);
    } else {
      EdgesRise(box.1, box.3, RowCount(cells), b.row + b.rowSpan, a.row);
    }
  }

  /** `_get_cell_bbox_pair`: the boxes the OCR gave when there is one for every
      cell, else the table's box divided evenly, else none. */
  method CellBoxes(cells: seq<Cell>, cellBoxes: seq<Option<Box>>, tableBox: Option<Box>)
    returns (pairs: seq<(Cell, Option<Box>)>)
    requires forall c <- cells :: c.Valid()
    ensures |pairs| == |cells| && forall k :: 0 <= k < |cells| ==>
              && pairs[k].0 == cells[k]
              && pairs[k].1 == if |cellBoxes| == |cells| && None !in cellBoxes then cellBoxes[k]
                               else if tableBox.None? then None
                               else Some(DerivedBox(cells, tableBox.value, cells[k]))
  {
    pairs := [];
    if |cellBoxes| == |cells| && forall k :: 0 <= k < |cellBoxes| ==> cellBoxes[k] != None {
      for k := 0 to |cells|
        invariant |pairs| == k && forall i :: 0 <= i < k ==> pairs[i] == (cells[i], cellBoxes[i])
      {
        pairs := pairs + [(cells[k], cellBoxes[k])];
      }
      return;
    }
    if tableBox.None? {
      for k := 0 to |cells|
        invariant |pairs| == k && forall i :: 0 <= i < k ==> pairs[i] == (cells[i], None)
      {
        pairs := pairs + [(cells[k], None)];
      }
      return;
    }
    pairs := DerivedBoxes(cells, tableBox.value);
  }

  /** The table's box divided evenly. */
  method DerivedBoxes(cells: seq<Cell>, box: Box) returns (pairs: seq<(Cell, Option<Box>)>)
    requires forall c <- cells :: c.Valid()
    ensures |pairs| == |cells|
    ensures forall k :: 0 <= k < |cells| ==> pairs[k] == (cells[k], Some(DerivedBox(cells, box, cells[k])))
  {
    hide UniformEdges, RowCount, ColCount;
    var xs := UniformEdges(box.0, box.2, ColCount(cells));
    var ys := UniformEdges(box.1, box.3, RowCount(cells));
    CountsReached(cells);
    pairs := [];
    for k := 0 to |cells|
      invariant |pairs| == k && forall i :: 0 <= i < k ==>
        pairs[i] == (cells[i], Some(DerivedBox(cells, box, cells[i])))
    {
      var cell := cells[k];
      pairs := pairs + [(cell, Some((xs[cell.col], ys[cell.row], xs[cell.col + cell.colSpan],
                                     ys[cell.row + cell.rowSpan])))];
    }
  }
}
