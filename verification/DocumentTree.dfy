/** Assembled tables: _attach_cells and _build_table_node of
    backend/app/services/document_tree.py, for the tables the worker stores. */
module DocumentTree {
  import opened MinMax
  import opened Options
  import opened TableHtml
  import opened TableGeometry
  import opened TableStitch

  /** A stored cell row; columns may be null. */
  datatype CellRow = CellRow(
    partId: nat, rowIdx: Option<nat>, colIdx: Option<nat>,
    rowSpan: Option<nat>, colSpan: Option<nat>, text: string, isHeader: bool)

  /** A stored part: the table it belongs to, and the table row it starts at. */
  datatype PartRow = PartRow(tableId: nat, rowStart: Option<nat>)

  /** Python's `value or default`. */
  function Or(value: Option<nat>, default: nat): nat {
    match value
    case Some(v) => if v == 0 then default else v
    case None => default
  }

  class TableAssembly {
    var cells: seq<Cell>
    var hasSpans: bool
  }

  function NodeOf(part: PartRow, row: CellRow): Cell {
    Cell(Or(part.rowStart, 0) + Or(row.rowIdx, 0), Or(row.colIdx, 0), Or(row.rowSpan, 1), Or(row.colSpan, 1),
         row.text, row.isHeader)
  }

  predicate BelongsTo(parts: map<nat, PartRow>, row: CellRow, table: nat) {
    row.partId in parts && parts[row.partId].tableId == table
  }

  /** The nodes of one table, in the order its cell rows are visited. */
  function NodesOf(parts: map<nat, PartRow>, rows: seq<CellRow>, table: nat): seq<Cell> {
    if rows == [] then []
    else
      var row := rows[|rows| - 1];
      NodesOf(parts, rows[..|rows| - 1], table)
      + if BelongsTo(parts, row, table) then [NodeOf(parts[row.partId], row)] else []
  }

  /** Which cell rows are the table's: those of its own parts, as they are visited. */
  lemma {:induction false} NodesAreOwn(parts: map<nat, PartRow>, rows: seq<CellRow>, table: nat)
    returns (picked: seq<nat>)
    ensures forall i, j :: 0 <= i < j < |picked| ==> picked[i] < picked[j]
    ensures forall m: nat :: m in picked <==>
              m < |rows| && rows[m].partId in parts && parts[rows[m].partId].tableId == table
    ensures |NodesOf(parts, rows, table)| == |picked|
    ensures forall i :: 0 <= i < |picked| ==>
              picked[i] < |rows| && rows[picked[i]].partId in parts
              && NodesOf(parts, rows, table)[i] == NodeOf(parts[rows[picked[i]].partId], rows[picked[i]])
  {
    picked := [];
    if rows != [] {
      var n := |rows| - 1;
      picked := NodesAreOwn(parts, rows[..n], table);
      assert forall i :: 0 <= i < |picked| ==> picked[i] in picked;
      if rows[n].partId in parts && parts[rows[n].partId].tableId == table {
        picked := picked + [n];
      }
    }
  }

  /** Where a cell's node lies, with nulls read as the first part's first slot and as no
      span. */
  lemma {:induction false} NodeIs(part: PartRow, row: CellRow)
    ensures var node := NodeOf(part, row);
            && node.row == (if part.rowStart.Some? then part.rowStart.value else 0)
                           + (if row.rowIdx.Some? then row.rowIdx.value else 0)
            && node.col == (if row.colIdx.Some? then row.colIdx.value else 0)
            && node.rowSpan == (if row.rowSpan.Some? && row.rowSpan.value > 0 then row.rowSpan.value else 1)
            && node.colSpan == (if row.colSpan.Some? && row.colSpan.value > 0 then row.colSpan.value else 1)
            && node.text == row.text && node.isHeader == row.isHeader
  {
  }

  ghost predicate HasSpan(cells: seq<Cell>) {
    exists i :: 0 <= i < |cells| && (cells[i].rowSpan > 1 || cells[i].colSpan > 1)
  }

  /** `_attach_cells`: each table gets the nodes of its own parts' cells. */
  method AttachCells(assemblies: map<nat, TableAssembly>, parts: map<nat, PartRow>, rows: seq<CellRow>)
    requires forall s, t :: s in assemblies && t in assemblies && s != t ==> assemblies[s] != assemblies[t]
    modifies assemblies.Values
    ensures forall t <- assemblies :: assemblies[t].cells == old(assemblies[t].cells) + NodesOf(parts, rows, t)
    ensures forall t <- assemblies ::
              assemblies[t].hasSpans == (old(assemblies[t].hasSpans) || HasSpan(NodesOf(parts, rows, t)))
  {
    ghost var was := map t | t in assemblies :: assemblies[t].cells;
    for k := 0 to |rows|
      invariant forall t <- assemblies :: assemblies[t].cells == was[t] + NodesOf(parts, rows[..k], t)
      invariant forall t <- assemblies ::
        assemblies[t].hasSpans == (old(assemblies[t].hasSpans) || HasSpan(NodesOf(parts, rows[..k], t)))
    {
      NextNodes(parts, rows, k);
      NextCells(was, parts, rows, k);
      hide HasSpan, NodeOf, NodesOf, BelongsTo, Spanning;
      AttachCell(assemblies, parts, rows[k]);
    }
    assert rows[..|rows|] == rows;
  }

  lemma NextCells(was: map<nat, seq<Cell>>, parts: map<nat, PartRow>, rows: seq<CellRow>, k: nat)
    requires k < |rows|
    ensures forall t <- was :: was[t] + NodesOf(parts, rows[..k + 1], t) ==
              (if BelongsTo(parts, rows[k], t)
               then was[t] + NodesOf(parts, rows[..k], t) + [NodeOf(parts[rows[k].partId], rows[k])]
               else was[t] + NodesOf(parts, rows[..k], t))
  {
    NextNodes(parts, rows, k);
    hide NodesOf, NodeOf;
  }

  predicate Spanning(row: CellRow) {
    Or(row.rowSpan, 1) > 1 || Or(row.colSpan, 1) > 1
  }

  method AttachCell(assemblies: map<nat, TableAssembly>, parts: map<nat, PartRow>, row: CellRow)
    requires forall s, t :: s in assemblies && t in assemblies && s != t ==> assemblies[s] != assemblies[t]
    modifies assemblies.Values
    ensures forall t <- assemblies :: assemblies[t].cells ==
              (if BelongsTo(parts, row, t) then old(assemblies[t].cells) + [NodeOf(parts[row.partId], row)]
               else old(assemblies[t].cells))
    ensures forall t <- assemblies :: assemblies[t].hasSpans ==
              (old(assemblies[t].hasSpans) || (BelongsTo(parts, row, t) && Spanning(row)))
  {
    if row.partId in parts {
      var part := parts[row.partId];
      if part.tableId in assemblies {
        var assembly := assemblies[part.tableId];
        var rowSpan, colSpan := Or(row.rowSpan, 1), Or(row.colSpan, 1);
        if rowSpan > 1 || colSpan > 1 {
          assembly.hasSpans := true;
        }
        assembly.cells := assembly.cells + [NodeOf(part, row)];
      }
    }
  }

  lemma NextNodes(parts: map<nat, PartRow>, rows: seq<CellRow>, k: nat)
    requires k < |rows|
    ensures forall t: nat :: NodesOf(parts, rows[..k + 1], t) ==
              (if BelongsTo(parts, rows[k], t)
               then NodesOf(parts, rows[..k], t) + [NodeOf(parts[rows[k].partId], rows[k])]
               else NodesOf(parts, rows[..k], t))
    ensures forall t: nat :: HasSpan(NodesOf(parts, rows[..k + 1], t)) <==>
              HasSpan(NodesOf(parts, rows[..k], t)) || (BelongsTo(parts, rows[k], t) && Spanning(rows[k]))
  {
    assert rows[..k + 1][..k] == rows[..k];
    forall t: nat | BelongsTo(parts, rows[k], t)
      ensures HasSpan(NodesOf(parts, rows[..k], t) + [NodeOf(parts[rows[k].partId], rows[k])]) <==>
                HasSpan(NodesOf(parts, rows[..k], t)) || Spanning(rows[k])
    {
      SpansSoFar(NodesOf(parts, rows[..k], t), parts[rows[k].partId], rows[k]);
    }
    hide HasSpan, Spanning, NodeOf;
  }

  lemma SpansSoFar(cells: seq<Cell>, part: PartRow, row: CellRow)
    ensures HasSpan(cells + [NodeOf(part, row)]) <==> HasSpan(cells) || Spanning(row)
  {
    var more := cells + [NodeOf(part, row)];
    if HasSpan(cells) {
      var i :| 0 <= i < |cells| && (cells[i].rowSpan > 1 || cells[i].colSpan > 1);
      assert more[i] == cells[i];
    }
    assert more[|cells|] == NodeOf(part, row);
  }

  /** The rows the worker stores for a table: part `k` under some id of its own. */
  function StoredRow(ids: seq<nat>, s: StoredCell): CellRow
    requires s.0 < |ids|
  {
    CellRow(ids[s.0], Some(s.1.row), Some(s.1.col), Some(s.1.rowSpan), Some(s.1.colSpan), s.1.text, s.1.isHeader)
  }

  function StoredRows(ids: seq<nat>, stored: seq<StoredCell>): (rows: seq<CellRow>)
    requires forall s <- stored :: s.0 < |ids|
    ensures |rows| == |stored|
  {
    seq(|stored|, i requires 0 <= i < |stored| => assert stored[i] in stored; StoredRow(ids, stored[i]))
  }

  /** The tree shows a stored table's cells where `Attached` puts them, so by
      `StitchIsConcatenation` its grid is the grids of the parts, one below the other. */
  lemma {:induction false} TreeShowsStoredCells(group: seq<Part>, stored: seq<StoredCell>, ids: seq<nat>,
                                                parts: map<nat, PartRow>, table: nat)
    requires |ids| == |group| && forall s <- stored :: s.0 < |group| && s.1.Valid()
    requires forall k :: 0 <= k < |group| ==>
               ids[k] in parts && parts[ids[k]] == PartRow(table, Some(RegionTableOf(group, k).rowStart))
    ensures NodesOf(parts, StoredRows(ids, stored), table) == Attached(group, stored)
  {
    if stored != [] {
      var init, last := stored[..|stored| - 1], stored[|stored| - 1];
      assert last in stored;
      TreeShowsStoredCells(group, init, ids, parts, table);
      OneMoreStored(group, init, last, ids, parts, table);
      assert stored == init + [last];
    }
  }

  lemma OneMoreStored(group: seq<Part>, init: seq<StoredCell>, last: StoredCell, ids: seq<nat>,
                      parts: map<nat, PartRow>, table: nat)
    requires |ids| == |group| && (forall s <- init :: s.0 < |group|) && last.0 < |group| && last.1.Valid()
    requires ids[last.0] in parts && parts[ids[last.0]] == PartRow(table, Some(RegionTableOf(group, last.0).rowStart))
    ensures NodesOf(parts, StoredRows(ids, init + [last]), table)
              == NodesOf(parts, StoredRows(ids, init), table) + [Shifted(last.1, Offset(group, last.0))]
    ensures Attached(group, init + [last]) == Attached(group, init) + [Shifted(last.1, Offset(group, last.0))]
  {
    var rows := StoredRows(ids, init + [last]);
    assert rows[..|init|] == StoredRows(ids, init);
    assert NodeOf(parts[ids[last.0]], rows[|init|]) == Shifted(last.1, Offset(group, last.0));
  }

  // ----- the size of the assembled table

  /** Rows the parts claim, `row_end - row_start + 1` each. */
  function DerivedRows(group: seq<Part>, n: nat): int
    requires n <= |group|
  {
    if n == 0 then 0
    else
      var part := RegionTableOf(group, n - 1);
      DerivedRows(group, n - 1) + part.rowEnd - part.rowStart + 1
  }

  /** The row count of the node: the larger of the stored and the derived one. */
  function NodeRowCount(group: seq<Part>): int {
    Max(Offset(group, |group|), DerivedRows(group, |group|))
  }

  lemma {:induction false} DerivedRowsAtLeast(group: seq<Part>, n: nat)
    requires n <= |group|
    ensures DerivedRows(group, n) >= Offset(group, n)
    ensures DerivedRows(group, n) == Offset(group, n) <==> forall k :: 0 <= k < n ==> group[k].Rows() > 0
  {
    if n > 0 {
      DerivedRowsAtLeast(group, n - 1);
    }
  }

  /** The node has exactly the rows of the grid, unless the table has no cells at
      all: an empty table is shown as one row, because a part's last row is never
      before its first. */
  lemma {:induction false} NodeRowsAreGridRows(group: seq<Part>)
    requires IsGroup(group, true) && forall k :: 0 <= k < |group| ==> group[k].Valid()
    ensures NodeRowCount(group) == Offset(group, |group|) <==> group[0].cells != []
    ensures group[0].cells == [] ==> |group| == 1 && NodeRowCount(group) == 1 && Offset(group, 1) == 0
  {
    DerivedRowsAtLeast(group, |group|);
    forall k | 0 <= k < |group|
      ensures group[k].Rows() > 0 <==> group[k].cells != []
      ensures |group| > 1 ==> group[k].cells != []
    {
      NonemptyHasRows(group[k]);
      if |group| > 1 {
        StitchedPartsAlike(group, k);
      }
    }
    if |group| == 1 {
      assert DerivedRows(group, 1) == RegionTableOf(group, 0).rowEnd - RegionTableOf(group, 0).rowStart + 1 by {
        assert DerivedRows(group, 0) == 0;
      }
    }
  }

  /** `row_sources`: for each part, each of its rows with the part's page. */
  function RowSources(group: seq<Part>, n: nat): seq<(int, nat)>
    requires n <= |group|
  {
    if n == 0 then []
    else
      var part := RegionTableOf(group, n - 1);
      RowSources(group, n - 1)
      + seq(part.rowEnd - part.rowStart + 1, i => (part.rowStart + i, group[n - 1].pageIndex + 1))
  }

  /** Every row of a table with cells is listed once, in order, with the page of
      the part it lies in. */
  lemma {:induction false} EveryRowHasItsSource(group: seq<Part>, n: nat, k: nat, r: nat)
    requires k < n <= |group| && forall j :: 0 <= j < n ==> group[j].Rows() > 0
    requires RegionTableOf(group, k).rowStart <= r <= RegionTableOf(group, k).rowEnd
    ensures |RowSources(group, n)| == Offset(group, n) > r
    ensures RowSources(group, n)[r] == (r, group[k].pageIndex + 1)
  {
    hide Part.Rows, RowCount;
    SourcesCount(group, n);
    SourcesCount(group, n - 1);
    OffsetsRise(group, k + 1, n);
    if k < n - 1 {
      EveryRowHasItsSource(group, n - 1, k, r);
    }
  }

  lemma {:induction false} SourcesCount(group: seq<Part>, n: nat)
    requires n <= |group| && forall j :: 0 <= j < n ==> group[j].Rows() > 0
    ensures |RowSources(group, n)| == Offset(group, n)
  {
    if n > 0 {
      SourcesCount(group, n - 1);
    }
  }
}
