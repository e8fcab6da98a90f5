/** Tables that go on over page breaks: _group_region_tables and _build_table of
    worker/app/pipeline/document_parser.py, _attach_cells and _build_table_node of
    backend/app/services/document_tree.py, and _build_grid of
    backend/app/services/markdown.py. */
module TableStitch {
  import opened MinMax
  import opened TableHtml
  import opened TableGeometry

  /** One table region of one page. */
  datatype Part = Part(
    pageIndex: nat,
    regionReadingOrder: nat,
    pageTotalReadingOrder: int,
    cells: seq<Cell>,
    title: string
  ) {
    function Rows(): nat { RowCount(cells) }

    function Cols(): nat { ColCount(cells) }

    ghost predicate Valid() {
      forall c <- cells :: c.Valid()
    }
  }

  /** `_consecutive_parts`. */
  predicate Consecutive(prev: Part, curr: Part) {
    && curr.pageIndex == prev.pageIndex + 1
    && prev.regionReadingOrder == prev.pageTotalReadingOrder - 1
    && curr.regionReadingOrder == 0
    && curr.Cols() > 0
    && curr.Cols() == prev.Cols()
  }

  /** A table at the end of one page and one at the start of the next, equally wide. */
  ghost predicate AcrossBreak(first: Part, second: Part) {
    && second.pageIndex - first.pageIndex == 1
    && first.regionReadingOrder + 1 == first.pageTotalReadingOrder && second.regionReadingOrder == 0
    && ColCount(first.cells) == ColCount(second.cells) != 0
  }

  function Flatten(groups: seq<seq<Part>>): seq<Part> {
    if groups == [] then [] else Flatten(groups[..|groups| - 1]) + groups[|groups| - 1]
  }

  ghost predicate IsGroup(group: seq<Part>, merge: bool) {
    && group != []
    && (|group| > 1 ==> merge)
    && forall j, k :: 0 <= j && k == j + 1 < |group| ==> Consecutive(group[j], group[k])
  }

  /** The second group does not go on from the first. */
  predicate Cut(a: seq<Part>, b: seq<Part>) {
    a != [] && b != [] && !Consecutive(a[|a| - 1], b[0])
  }

  /** `_group_region_tables`: the parts in order, cut wherever a part does not go on
      from the one before it, and nowhere else. */
  method GroupRegionTables(parts: seq<Part>, merge: bool) returns (groups: seq<seq<Part>>)
    ensures Flatten(groups) == parts
    ensures forall g :: 0 <= g < |groups| ==> IsGroup(groups[g], merge)
    ensures merge ==> forall g, h :: 0 <= g && h == g + 1 < |groups| ==> Cut(groups[g], groups[h])
    ensures forall g, j, k :: 0 <= g < |groups| && 0 <= j && k == j + 1 < |groups[g]| ==>
              merge && AcrossBreak(groups[g][j], groups[g][k])
    ensures merge ==> forall g, h :: 0 <= g && h == g + 1 < |groups| ==>
              groups[g] != [] && groups[h] != [] && !AcrossBreak(groups[g][|groups[g]| - 1], groups[h][0])
  {
    hide AcrossBreak;
    groups := [];
    for i := 0 to |parts|
      invariant Flatten(groups) == parts[..i]
      invariant forall g :: 0 <= g < |groups| ==> IsGroup(groups[g], merge)
      invariant merge ==> forall g, h :: 0 <= g && h == g + 1 < |groups| ==> Cut(groups[g], groups[h])
    {
      hide Consecutive;
      var part := parts[i];
      var n := |groups| - 1;
      assert parts[..i + 1] == parts[..i] + [part];
      if merge && groups != [] && Consecutive(groups[n][|groups[n]| - 1], part) {
        var longer := groups[n] + [part];
        assert groups[n := longer][..n] == groups[..n];
        groups := groups[n := longer];
      } else {
        assert (groups + [[part]])[..n + 1] == groups;
        groups := groups + [[part]];
      }
    }
    assert parts[..|parts|] == parts;
    GroupsMean(groups, merge);
  }

  lemma GroupsMean(groups: seq<seq<Part>>, merge: bool)
    requires forall g :: 0 <= g < |groups| ==> IsGroup(groups[g], merge)
    requires merge ==> forall g, h :: 0 <= g && h == g + 1 < |groups| ==> Cut(groups[g], groups[h])
    ensures forall g, j, k :: 0 <= g < |groups| && 0 <= j && k == j + 1 < |groups[g]| ==>
              merge && AcrossBreak(groups[g][j], groups[g][k])
    ensures merge ==> forall g, h :: 0 <= g && h == g + 1 < |groups| ==>
              groups[g] != [] && groups[h] != [] && !AcrossBreak(groups[g][|groups[g]| - 1], groups[h][0])
  {
    forall g, j, k | 0 <= g < |groups| && 0 <= j && k == j + 1 < |groups[g]|
      ensures merge && AcrossBreak(groups[g][j], groups[g][k])
    {
      NeighboursGoOn(groups[g], merge, j);
    }
  }

  lemma NeighboursGoOn(group: seq<Part>, merge: bool, j: nat)
    requires IsGroup(group, merge) && j + 1 < |group|
    ensures merge && AcrossBreak(group[j], group[j + 1])
  {
    assert Consecutive(group[j], group[j + 1]);
  }

  /** The rows of the first `n` parts. */
  function Offset(group: seq<Part>, n: nat): nat
    requires n <= |group|
  {
    if n == 0 then 0 else Offset(group, n - 1) + group[n - 1].Rows()
  }

  datatype Table = Table(rowCount: nat, colCount: nat, isStitched: bool, title: string)

  datatype RegionTable = RegionTable(readingOrder: nat, rowStart: nat, rowEnd: nat, colStart: nat, colEnd: nat)

  /** A stored cell: which part it belongs to, and its place inside that part. */
  type StoredCell = (nat, Cell)

  function RegionTableOf(group: seq<Part>, k: nat): RegionTable
    requires k < |group|
  {
    RegionTable(k, Offset(group, k), Offset(group, k) + Max(group[k].Rows() - 1, 0), 0, Max(group[k].Cols() - 1, 0))
  }

  function CellsOf(group: seq<Part>, n: nat): seq<StoredCell>
    requires n <= |group|
  {
    if n == 0 then [] else CellsOf(group, n - 1) + Tagged(n - 1, group[n - 1].cells)
  }

  function Tagged(k: nat, cells: seq<Cell>): (stored: seq<StoredCell>)
    ensures |stored| == |cells| && forall i :: 0 <= i < |cells| ==> stored[i] == (k, cells[i])
  {
    seq(|cells|, i requires 0 <= i < |cells| => (k, cells[i]))
  }

  function LastTitle(group: seq<Part>): string {
    if group == [] then ""
    else if group[|group| - 1].title != "" then group[|group| - 1].title
    else LastTitle(group[..|group| - 1])
  }

  /** The title of the last part that has one. */
  ghost predicate IsLastTitle(group: seq<Part>, title: string) {
    || (title == "" && forall k :: 0 <= k < |group| ==> group[k].title == "")
    || exists k :: 0 <= k < |group| && group[k].title == title != "" && NoTitleAfter(group, k)
  }

  ghost predicate NoTitleAfter(group: seq<Part>, k: int) {
    forall m :: k < m < |group| && 0 <= m ==> group[m].title == ""
  }

  lemma {:induction false} LastTitleIs(group: seq<Part>)
    ensures IsLastTitle(group, LastTitle(group))
  {
    if group != [] {
      var n := |group| - 1;
      var init, title := group[..n], LastTitle(group);
      LastTitleIs(init);
      if group[n].title != "" {
        assert NoTitleAfter(group, n);
      } else if title != "" {
        var k :| 0 <= k < n && init[k].title == title && NoTitleAfter(init, k);
        assert group[k].title == title && NoTitleAfter(group, k);
      }
    }
  }

  /** The stored cells of one part, after those of the parts before it. */
  method AppendCells(before: seq<StoredCell>, k: nat, cells: seq<Cell>) returns (stored: seq<StoredCell>)
    ensures stored == before + Tagged(k, cells)
  {
    stored := before;
    for i := 0 to |cells|
      invariant stored == before + Tagged(k, cells)[..i]
    {
      stored := stored + [(k, cells[i])];
    }
  }

  /** `_build_table`. */
  method BuildTable(group: seq<Part>) returns (whole: Table, regionTables: seq<RegionTable>, stored: seq<StoredCell>)
    requires group != []
    ensures whole.rowCount == Offset(group, |group|) && whole.colCount == group[0].Cols()
    ensures whole.isStitched == (|group| > 1) && whole.title == LastTitle(group)
    ensures |regionTables| == |group| && forall k :: 0 <= k < |group| ==> regionTables[k] == RegionTableOf(group, k)
    ensures stored == CellsOf(group, |group|)
    ensures IsLastTitle(group, whole.title)
  {
    hide IsLastTitle, Part.Rows, Part.Cols, Tagged;
    var title := "";
    var rows := 0;
    for k := 0 to |group|
      invariant title == LastTitle(group[..k]) && rows == Offset(group, k)
    {
      assert group[..k + 1][..k] == group[..k];
      if group[k].title != "" {
        title := group[k].title;
      }
      rows := rows + group[k].Rows();
    }
    assert group[..|group|] == group;
    LastTitleIs(group);
    whole := Table(rows, group[0].Cols(), |group| > 1, title);
    var rowOffset := 0;
    regionTables, stored := [], [];
    for k := 0 to |group|
      invariant rowOffset == Offset(group, k)
      invariant |regionTables| == k && forall i :: 0 <= i < k ==> regionTables[i] == RegionTableOf(group, i)
      invariant stored == CellsOf(group, k)
    {
      var part := group[k];
      regionTables := regionTables +
        [RegionTable(k, rowOffset, rowOffset + Max(part.Rows() - 1, 0), 0, Max(part.Cols() - 1, 0))];
      stored := AppendCells(stored, k, part.cells);
      rowOffset := rowOffset + part.Rows();
    }
  }

  // ----- the row ranges of a stitched table

  lemma {:induction false} StitchedPartsAlike(group: seq<Part>, k: nat)
    requires IsGroup(group, true) && |group| > 1 && k < |group|
    ensures group[k].cells != [] && group[k].Cols() == group[0].Cols() > 0
  {
    assert Consecutive(group[0], group[1]);
    if k > 0 {
      StitchedPartsAlike(group, k - 1);
      assert Consecutive(group[k - 1], group[k]);
    }
  }

  lemma NonemptyHasRows(part: Part)
    requires part.Valid()
    ensures part.cells == [] <==> part.Rows() == 0
    ensures part.cells == [] <==> part.Cols() == 0
  {
    CountsReached(part.cells);
    assert part.cells != [] ==> part.cells[0] in part.cells;
  }

  /** The parts' row ranges tile the table: the first starts at 0, each next one
      right after the one before, and the last ends at the last row. So every row
      belongs to exactly one part. */
  lemma {:induction false} RowRangesTile(group: seq<Part>)
    requires IsGroup(group, true) && |group| > 1 && forall k :: 0 <= k < |group| ==> group[k].Valid()
    ensures RegionTableOf(group, 0).rowStart == 0
    ensures forall j, k :: 0 <= j && k == j + 1 < |group| ==>
              RegionTableOf(group, k).rowStart == RegionTableOf(group, j).rowEnd + 1
    ensures RegionTableOf(group, |group| - 1).rowEnd + 1 == Offset(group, |group|)
    ensures forall k :: 0 <= k < |group| ==>
              && RegionTableOf(group, k).readingOrder == k
              && RegionTableOf(group, k).rowEnd - RegionTableOf(group, k).rowStart + 1 == RowCount(group[k].cells)
              && RegionTableOf(group, k).colStart == 0
              && RegionTableOf(group, k).colEnd + 1 == ColCount(group[0].cells)
  {
    forall k | 0 <= k < |group|
      ensures group[k].Rows() > 0 && group[k].Cols() == group[0].Cols() > 0
    {
      StitchedPartsAlike(group, k);
      NonemptyHasRows(group[k]);
    }
  }

  lemma {:induction false} OffsetsRise(group: seq<Part>, i: nat, j: nat)
    requires i <= j <= |group|
    ensures Offset(group, i) <= Offset(group, j)
  {
    if i < j {
      OffsetsRise(group, i, j - 1);
    }
  }

  // ----- painting

  /** The text at a slot: that of the last cell painted over it. */
  function Painted(cells: seq<Cell>, r: int, c: int): string {
    if cells == [] then ""
    else if cells[|cells| - 1].Covers(r, c) then cells[|cells| - 1].text
    else Painted(cells[..|cells| - 1], r, c)
  }

  function GridRow(cells: seq<Cell>, r: int): seq<string> {
    seq(ColCount(cells), c => Painted(cells, r, c))
  }

  /** The dense grid of some cells, as tall and wide as they reach. */
  function Grid(cells: seq<Cell>): seq<seq<string>> {
    seq(RowCount(cells), r => GridRow(cells, r))
  }

  /** The slot is that many rows below and columns right of the cell's anchor. */
  predicate InRectangle(cell: Cell, r: int, c: int) {
    0 <= r - cell.row < cell.rowSpan && 0 <= c - cell.col < cell.colSpan
  }

  ghost predicate IsOnTop(cells: seq<Cell>, k: nat, r: int, c: int) {
    && k < |cells| && InRectangle(cells[k], r, c)
    && forall m :: k < m < |cells| ==> !InRectangle(cells[m], r, c)
  }

  /** A slot shows the text of the last cell over it, if there is any. */
  ghost predicate Shows(cells: seq<Cell>, r: int, c: int, text: string) {
    && (forall k :: 0 <= k < |cells| && IsOnTop(cells, k, r, c) ==> text == cells[k].text)
    && ((forall k :: 0 <= k < |cells| ==> !InRectangle(cells[k], r, c)) ==> text == "")
  }

  lemma {:induction false} PaintedShows(cells: seq<Cell>, r: int, c: int)
    ensures Shows(cells, r, c, Painted(cells, r, c))
  {
    hide Shows;
    if cells == [] {
      NothingShown(r, c);
    } else {
      var init, last := cells[..|cells| - 1], cells[|cells| - 1];
      PaintedShows(init, r, c);
      assert cells == init + [last];
      assert last.Covers(r, c) <==> InRectangle(last, r, c);
      OneMoreShown(init, last, r, c, Painted(init, r, c));
    }
  }

  lemma NothingShown(r: int, c: int)
    ensures Shows([], r, c, "")
  {
  }

  lemma OneMoreShown(init: seq<Cell>, last: Cell, r: int, c: int, text: string)
    requires Shows(init, r, c, text)
    ensures Shows(init + [last], r, c, if InRectangle(last, r, c) then last.text else text)
  {
    hide InRectangle;
    var cells := init + [last];
    assert cells[|init|] == last;
    forall k: nat | k < |init| && IsOnTop(cells, k, r, c)
      ensures IsOnTop(init, k, r, c) && cells[k] == init[k]
    {
      assert forall m :: 0 <= m < |init| ==> init[m] == cells[m];
    }
    assert forall m :: 0 <= m < |init| ==> init[m] == cells[m];
  }

  /** Paints one cell over its rectangle. */
  method Paint(grid: array2<string>, cell: Cell)
    requires cell.row + cell.rowSpan <= grid.Length0 && cell.col + cell.colSpan <= grid.Length1
    modifies grid
    ensures forall r, c :: 0 <= r < grid.Length0 && 0 <= c < grid.Length1 ==>
              grid[r, c] == if cell.Covers(r, c) then cell.text else old(grid[r, c])
  {
    for row := cell.row to cell.row + cell.rowSpan
      invariant forall r, c :: 0 <= r < grid.Length0 && 0 <= c < grid.Length1 ==>
        grid[r, c] == if cell.Covers(r, c) && r < row then cell.text else old(grid[r, c])
    {
      for col := cell.col to cell.col + cell.colSpan
        invariant forall r, c :: 0 <= r < grid.Length0 && 0 <= c < grid.Length1 ==>
          grid[r, c] == if cell.Covers(r, c) && (r < row || (r == row && c < col)) then cell.text
                        else old(grid[r, c])
      {
        grid[row, col] := cell.text;
      }
    }
  }

  /** `_build_grid`. */
  method BuildGrid(cells: seq<Cell>) returns (grid: array2<string>)
    requires forall c <- cells :: c.Valid()
    ensures fresh(grid) && grid.Length0 == |Grid(cells)| && grid.Length1 == ColCount(cells)
    ensures forall r, c :: 0 <= r < grid.Length0 && 0 <= c < grid.Length1 ==> grid[r, c] == Grid(cells)[r][c]
    ensures forall r, c :: 0 <= r < grid.Length0 && 0 <= c < grid.Length1 ==> Shows(cells, r, c, grid[r, c])
  {
    hide Shows;
    var height, width := RowCount(cells), ColCount(cells);
    grid := new string[height, width]((_, _) => "");
    CountsReached(cells);
    AllShow(cells);
    for k := 0 to |cells|
      invariant forall r, c :: 0 <= r < height && 0 <= c < width ==> grid[r, c] == Painted(cells[..k], r, c)
    {
      assert cells[..k + 1][..k] == cells[..k];
      Paint(grid, cells[k]);
    }
    assert cells[..|cells|] == cells;
  }

  lemma AllShow(cells: seq<Cell>)
    ensures forall r, c :: Shows(cells, r, c, Painted(cells, r, c))
  {
    forall r, c
      ensures Shows(cells, r, c, Painted(cells, r, c))
    {
      PaintedShows(cells, r, c);
    }
  }

  // ----- the table as the document tree shows it

  /** `_attach_cells` for one table: rows become rows of the whole table. */
  function Attached(group: seq<Part>, stored: seq<StoredCell>): (cells: seq<Cell>)
    requires forall s <- stored :: s.0 < |group|
    ensures |cells| == |stored|
  {
    seq(|stored|, i requires 0 <= i < |stored| =>
      assert stored[i] in stored;
      Shifted(stored[i].1, Offset(group, stored[i].0)))
  }

  function Shifted(cell: Cell, rows: nat): Cell {
    cell.(row := rows + cell.row)
  }

  /** The cells of part `p`, in the order they are visited. */
  function VisitOf(stored: seq<StoredCell>, p: nat): seq<Cell> {
    if stored == [] then []
    else VisitOf(stored[..|stored| - 1], p) + if stored[|stored| - 1].0 == p then [stored[|stored| - 1].1] else []
  }

  /** The grids of the first `n` parts, one below the other. */
  function Stacked(stored: seq<StoredCell>, n: nat): seq<seq<string>> {
    if n == 0 then [] else Stacked(stored, n - 1) + Grid(VisitOf(stored, n - 1))
  }

  /** Every stored cell of the table, visited in any order. */
  ghost predicate Visits(stored: seq<StoredCell>, group: seq<Part>) {
    multiset(stored) == multiset(CellsOf(group, |group|))
  }

  lemma {:induction false} CellsOfMembers(group: seq<Part>, n: nat, s: StoredCell)
    requires n <= |group|
    ensures s in CellsOf(group, n) <==> s.0 < n && s.1 in group[s.0].cells
  {
    if n > 0 {
      CellsOfMembers(group, n - 1, s);
      var cells := group[n - 1].cells;
      var own := Tagged(n - 1, cells);
      if s.0 == n - 1 && s.1 in cells {
        var i :| 0 <= i < |cells| && cells[i] == s.1;
        assert own[i] == s;
      }
      assert s in CellsOf(group, n) <==> s in CellsOf(group, n - 1) || s in own;
    }
  }

  lemma VisitsMembers(stored: seq<StoredCell>, group: seq<Part>)
    requires Visits(stored, group)
    ensures forall s: StoredCell :: s in stored <==> s.0 < |group| && s.1 in group[s.0].cells
  {
    forall s: StoredCell
      ensures s in stored <==> s.0 < |group| && s.1 in group[s.0].cells
    {
      CellsOfMembers(group, |group|, s);
      assert s in stored <==> s in multiset(stored);
      assert s in CellsOf(group, |group|) <==> s in multiset(CellsOf(group, |group|));
    }
  }

  lemma {:induction false} VisitOfMembers(stored: seq<StoredCell>, p: nat)
    ensures forall c: Cell :: c in VisitOf(stored, p) <==> (p, c) in stored
  {
    if stored != [] {
      VisitOfMembers(stored[..|stored| - 1], p);
      assert stored == stored[..|stored| - 1] + [stored[|stored| - 1]];
    }
  }

  /** Each part's own grid is as tall and as wide as the part. */
  lemma PartGridSize(stored: seq<StoredCell>, group: seq<Part>, p: nat)
    requires Visits(stored, group) && p < |group|
    ensures RowCount(VisitOf(stored, p)) == group[p].Rows() && ColCount(VisitOf(stored, p)) == group[p].Cols()
  {
    VisitsMembers(stored, group);
    VisitOfMembers(stored, p);
    CountsOfSameCells(VisitOf(stored, p), group[p].cells);
  }

  /** Inside part `p`'s rows only part `p`'s cells paint, and they paint what they
      paint in the part's own grid. */
  lemma {:induction false} PaintedInPart(group: seq<Part>, stored: seq<StoredCell>, p: nat, r: nat, c: nat)
    requires forall s <- stored :: s.0 < |group| && s.1 in group[s.0].cells
    requires p < |group| && r < group[p].Rows()
    ensures Painted(Attached(group, stored), Offset(group, p) + r, c) == Painted(VisitOf(stored, p), r, c)
  {
    if stored != [] {
      var init, last := stored[..|stored| - 1], stored[|stored| - 1];
      PaintedInPart(group, init, p, r, c);
      assert Attached(group, stored)[..|init|] == Attached(group, init);
      assert last in stored;
      CoversOnlyOwnRows(group, last, p, r, c);
      var own := VisitOf(init, p);
      if last.0 == p {
        assert VisitOf(stored, p)[..|own|] == own;
      } else {
        assert VisitOf(stored, p) == own;
      }
    }
  }

  lemma CoversOnlyOwnRows(group: seq<Part>, s: StoredCell, p: nat, r: nat, c: nat)
    requires s.0 < |group| && s.1 in group[s.0].cells && p < |group| && r < group[p].Rows()
    ensures Shifted(s.1, Offset(group, s.0)).Covers(Offset(group, p) + r, c) <==> s.0 == p && s.1.Covers(r, c)
  {
    CountsReached(group[s.0].cells);
    if s.0 < p {
      OffsetsRise(group, s.0 + 1, p);
    } else if p < s.0 {
      OffsetsRise(group, p + 1, s.0);
    }
  }

  /** The whole table is as tall as its parts together, and as wide as each of them. */
  lemma {:induction false} TableGridSize(group: seq<Part>, stored: seq<StoredCell>)
    requires IsGroup(group, true) && (forall k :: 0 <= k < |group| ==> group[k].Valid()) && Visits(stored, group)
    requires forall s <- stored :: s.0 < |group|
    ensures RowCount(Attached(group, stored)) == Offset(group, |group|)
    ensures ColCount(Attached(group, stored)) == group[0].Cols()
    ensures forall k :: 0 <= k < |group| ==> group[k].Cols() == group[0].Cols()
  {
    VisitsMembers(stored, group);
    hide Attached, Visits, Offset, RowCount, ColCount, Consecutive;
    ColumnsAlike(group);
    if group[|group| - 1].cells == [] {
      EmptyTable(group, stored);
    } else {
      AllInside(group, stored);
      BottomReached(group, stored);
    }
  }

  lemma ColumnsAlike(group: seq<Part>)
    requires IsGroup(group, true)
    ensures forall k :: 0 <= k < |group| ==> group[k].Cols() == group[0].Cols()
  {
    forall k | 0 <= k < |group|
      ensures group[k].Cols() == group[0].Cols()
    {
      if |group| > 1 {
        StitchedPartsAlike(group, k);
      }
    }
  }

  /** No cell reaches below row `height` or right of column `width`. */
  ghost predicate FitsIn(cells: seq<Cell>, height: int, width: int) {
    forall i :: 0 <= i < |cells| ==>
      cells[i].row + cells[i].rowSpan <= height && cells[i].col + cells[i].colSpan <= width
  }

  lemma AllInside(group: seq<Part>, stored: seq<StoredCell>)
    requires forall s <- stored :: s.0 < |group| && s.1 in group[s.0].cells
    requires forall k :: 0 <= k < |group| ==> group[k].Cols() == group[0].Cols()
    requires group != []
    ensures FitsIn(Attached(group, stored), Offset(group, |group|), group[0].Cols())
  {
    hide Attached, Offset, ColCount, Shifted;
    forall i | 0 <= i < |stored|
      ensures var cell := Attached(group, stored)[i];
              cell.row + cell.rowSpan <= Offset(group, |group|) && cell.col + cell.colSpan <= group[0].Cols()
    {
      assert stored[i] in stored;
      AttachedInRange(group, stored, i);
    }
  }

  lemma BottomReached(group: seq<Part>, stored: seq<StoredCell>)
    requires group != [] && group[|group| - 1].cells != []
    requires forall s <- stored :: s.0 < |group|
    requires forall s: StoredCell :: s.0 == |group| - 1 && s.1 in group[|group| - 1].cells ==> s in stored
    requires group[|group| - 1].Cols() == group[0].Cols()
    requires FitsIn(Attached(group, stored), Offset(group, |group|), group[0].Cols())
    ensures RowCount(Attached(group, stored)) == Offset(group, |group|)
    ensures ColCount(Attached(group, stored)) == group[0].Cols()
  {
    hide Attached, Offset, RowCount, ColCount, FitsIn;
    var n, last := |group|, group[|group| - 1].cells;
    CountsReached(last);
    var tallest :| tallest in last && tallest.row + tallest.rowSpan == RowCount(last);
    var widest :| widest in last && widest.col + widest.colSpan == ColCount(last);
    AttachedMember(group, stored, n - 1, tallest);
    AttachedMember(group, stored, n - 1, widest);
    LastOffset(group);
    ExtentIs(Attached(group, stored), Shifted(tallest, Offset(group, n - 1)), Shifted(widest, Offset(group, n - 1)));
  }

  lemma LastOffset(group: seq<Part>)
    requires group != []
    ensures Offset(group, |group|) == Offset(group, |group| - 1) + group[|group| - 1].Rows()
  {
  }

  lemma EmptyTable(group: seq<Part>, stored: seq<StoredCell>)
    requires IsGroup(group, true) && group[|group| - 1].cells == []
    requires forall s <- stored :: s.0 < |group| && s.1 in group[s.0].cells
    ensures Offset(group, |group|) == 0 && group[0].Cols() == 0
    ensures RowCount(Attached(group, stored)) == 0 && ColCount(Attached(group, stored)) == 0
  {
    if |group| > 1 {
      StitchedPartsAlike(group, |group| - 1);
    }
    FirstIsMember(stored);
    assert stored == [];
  }

  lemma FirstIsMember<T>(s: seq<T>)
    ensures s != [] ==> s[0] in s
  {
  }

  lemma ExtentIs(cells: seq<Cell>, tallest: Cell, widest: Cell)
    requires tallest in cells && widest in cells
    requires FitsIn(cells, tallest.row + tallest.rowSpan, widest.col + widest.colSpan)
    ensures RowCount(cells) == tallest.row + tallest.rowSpan && ColCount(cells) == widest.col + widest.colSpan
  {
    CountsReached(cells);
  }

  lemma AttachedMember(group: seq<Part>, stored: seq<StoredCell>, p: nat, cell: Cell)
    requires (forall s <- stored :: s.0 < |group|) && (p, cell) in stored
    ensures Shifted(cell, Offset(group, p)) in Attached(group, stored)
  {
    var i :| 0 <= i < |stored| && stored[i] == (p, cell);
    assert Attached(group, stored)[i] == Shifted(cell, Offset(group, p));
  }

  lemma AttachedInRange(group: seq<Part>, stored: seq<StoredCell>, i: nat)
    requires (forall s <- stored :: s.0 < |group| && s.1 in group[s.0].cells) && i < |stored|
    ensures var cell := Attached(group, stored)[i];
            && Offset(group, stored[i].0) <= cell.row
            && cell.row + cell.rowSpan <= Offset(group, stored[i].0 + 1) <= Offset(group, |group|)
            && cell.col + cell.colSpan <= group[stored[i].0].Cols()
  {
    assert stored[i] in stored;
    CountsReached(group[stored[i].0].cells);
    OffsetsRise(group, stored[i].0 + 1, |group|);
  }

  /** The first `n` part grids are the first rows of the table's grid. */
  lemma {:induction false} StackedRows(group: seq<Part>, stored: seq<StoredCell>, n: nat)
    requires IsGroup(group, true) && (forall k :: 0 <= k < |group| ==> group[k].Valid()) && Visits(stored, group)
    requires (forall s <- stored :: s.0 < |group| && s.1 in group[s.0].cells) && n <= |group|
    ensures |Stacked(stored, n)| == Offset(group, n) <= |Grid(Attached(group, stored))|
    ensures Stacked(stored, n) == Grid(Attached(group, stored))[..Offset(group, n)]
  {
    hide Grid, IsGroup, Visits, Attached, RowCount, ColCount, VisitOf, Part.Valid, Part.Rows;
    TableGridSize(group, stored);
    OffsetsRise(group, n, |group|);
    GridHeight(Attached(group, stored));
    if n > 0 {
      OffsetsRise(group, n - 1, n);
      StackedRows(group, stored, n - 1);
      PartRows(group, stored, n - 1);
      SlicesJoin(Grid(Attached(group, stored)), Offset(group, n - 1), Offset(group, n));
    }
  }

  lemma GridHeight(cells: seq<Cell>)
    ensures |Grid(cells)| == RowCount(cells)
  {
  }

  lemma SlicesJoin<T>(s: seq<T>, m: nat, n: nat)
    requires m <= n <= |s|
    ensures s[..m] + s[m..n] == s[..n]
  {
  }

  /** Part `p`'s grid is its rows of the table's grid. */
  lemma PartRows(group: seq<Part>, stored: seq<StoredCell>, p: nat)
    requires IsGroup(group, true) && (forall k :: 0 <= k < |group| ==> group[k].Valid()) && Visits(stored, group)
    requires (forall s <- stored :: s.0 < |group| && s.1 in group[s.0].cells) && p < |group|
    requires Offset(group, p + 1) <= |Grid(Attached(group, stored))|
    ensures Grid(VisitOf(stored, p)) == Grid(Attached(group, stored))[Offset(group, p)..Offset(group, p + 1)]
  {
    hide IsGroup, Visits, Attached, VisitOf, Painted, GridRow, Grid, RowCount, ColCount;
    TableGridSize(group, stored);
    PartGridSize(stored, group, p);
    var all, own, off := Attached(group, stored), VisitOf(stored, p), Offset(group, p);
    GridHeight(all);
    GridHeight(own);
    forall r | 0 <= r < group[p].Rows()
      ensures Grid(all)[off + r] == Grid(own)[r]
    {
      PartRow(group, stored, p, r);
      GridRowAt(all, off + r);
      GridRowAt(own, r);
    }
    SliceIs(Grid(all), Grid(own), off);
  }

  lemma GridRowAt(cells: seq<Cell>, r: nat)
    requires r < RowCount(cells)
    ensures Grid(cells)[r] == GridRow(cells, r)
  {
  }

  lemma SliceIs<T>(s: seq<T>, t: seq<T>, off: nat)
    requires off + |t| <= |s| && forall r :: 0 <= r < |t| ==> s[off + r] == t[r]
    ensures t == s[off..off + |t|]
  {
  }

  lemma PartRow(group: seq<Part>, stored: seq<StoredCell>, p: nat, r: nat)
    requires forall s <- stored :: s.0 < |group| && s.1 in group[s.0].cells
    requires p < |group| && r < group[p].Rows()
    requires ColCount(Attached(group, stored)) == ColCount(VisitOf(stored, p))
    ensures GridRow(Attached(group, stored), Offset(group, p) + r) == GridRow(VisitOf(stored, p), r)
  {
    hide Painted, Attached, VisitOf, Offset;
    forall c | 0 <= c < ColCount(VisitOf(stored, p))
      ensures GridRow(Attached(group, stored), Offset(group, p) + r)[c] == GridRow(VisitOf(stored, p), r)[c]
    {
      PaintedInPart(group, stored, p, r, c);
    }
  }

  /** The main result: the grid of a stitched table is the grids of its parts, one
      below the other in part order, whatever order the cells are visited in. */
  lemma {:induction false} StitchIsConcatenation(group: seq<Part>, stored: seq<StoredCell>)
    requires IsGroup(group, true) && (forall k :: 0 <= k < |group| ==> group[k].Valid()) && Visits(stored, group)
    requires forall s <- stored :: s.0 < |group|
    ensures Grid(Attached(group, stored)) == Stacked(stored, |group|)
  {
    VisitsMembers(stored, group);
    StackedRows(group, stored, |group|);
    TableGridSize(group, stored);
  }

  // ----- from the parsed cells to the painted grid

  /** `order_by(row_idx, col_idx)`. */
  predicate RowColumnLe(a: Cell, b: Cell) {
    a.row < b.row || (a.row == b.row && a.col <= b.col)
  }

  ghost predicate InRowOrder(cells: seq<Cell>) {
    forall i, j :: 0 <= i < j < |cells| ==> RowColumnLe(cells[i], cells[j])
  }

  /** The cells of each part are visited by row and column; the parts come in any order. */
  ghost predicate PartsInRowOrder(stored: seq<StoredCell>) {
    forall i, j :: 0 <= i < j < |stored| && stored[i].0 == stored[j].0 ==> RowColumnLe(stored[i].1, stored[j].1)
  }

  lemma {:induction false} VisitOfCount(stored: seq<StoredCell>, p: nat, c: Cell)
    ensures multiset(VisitOf(stored, p))[c] == multiset(stored)[(p, c)]
  {
    if stored != [] {
      var init, last := stored[..|stored| - 1], stored[|stored| - 1];
      VisitOfCount(init, p, c);
      assert stored == init + [last];
    }
  }

  lemma {:induction false} VisitOfAppend(s: seq<StoredCell>, t: seq<StoredCell>, p: nat)
    ensures VisitOf(s + t, p) == VisitOf(s, p) + VisitOf(t, p)
  {
    if t == [] {
      assert s + t == s;
    } else {
      var init, last := t[..|t| - 1], t[|t| - 1];
      VisitOfAppend(s, init, p);
      assert (s + t)[..|s + t| - 1] == s + init;
    }
  }

  lemma {:induction false} VisitOfTagged(k: nat, cells: seq<Cell>, p: nat)
    ensures VisitOf(Tagged(k, cells), p) == if k == p then cells else []
  {
    if cells != [] {
      var init := cells[..|cells| - 1];
      VisitOfTagged(k, init, p);
      assert Tagged(k, cells)[..|init|] == Tagged(k, init);
      assert cells == init + [cells[|init|]];
    }
  }

  lemma VisitOfNone(p: nat)
    ensures VisitOf([], p) == []
  {
  }

  lemma {:induction false} VisitOfCells(group: seq<Part>, n: nat, p: nat)
    requires n <= |group| && p < |group|
    ensures VisitOf(CellsOf(group, n), p) == if p < n then group[p].cells else []
  {
    hide Tagged, VisitOf;
    if n == 0 {
      VisitOfNone(p);
    } else {
      VisitOfCells(group, n - 1, p);
      VisitOfAppend(CellsOf(group, n - 1), Tagged(n - 1, group[n - 1].cells), p);
      VisitOfTagged(n - 1, group[n - 1].cells, p);
    }
  }

  lemma {:induction false} VisitOfInRowOrder(stored: seq<StoredCell>, p: nat)
    requires PartsInRowOrder(stored)
    ensures InRowOrder(VisitOf(stored, p))
  {
    if stored != [] {
      var init, last := stored[..|stored| - 1], stored[|stored| - 1];
      VisitOfInRowOrder(init, p);
      forall c | c in VisitOf(init, p) && last.0 == p
        ensures RowColumnLe(c, last.1)
      {
        VisitOfMembers(init, p);
        var i :| 0 <= i < |init| && init[i] == (p, c);
        assert stored[i] == (p, c);
      }
    }
  }

  lemma SameMembers<T>(s: seq<T>, t: seq<T>)
    requires multiset(s) == multiset(t)
    ensures |s| == |t| && forall x :: x in s <==> x in t
  {
    assert |multiset(s)| == |s| && |multiset(t)| == |t|;
    forall x
      ensures x in s <==> x in t
    {
      assert x in multiset(s) <==> x in s;
      assert x in multiset(t) <==> x in t;
    }
  }

  lemma WithoutLast<T>(s: seq<T>)
    requires s != []
    ensures multiset(s[..|s| - 1]) == multiset(s) - multiset{s[|s| - 1]}
  {
    assert s == s[..|s| - 1] + [s[|s| - 1]];
  }

  /** Both orders end with the same cell. */
  lemma SameLast(cells: seq<Cell>, visit: seq<Cell>)
    requires WellPlaced(cells) && InRowOrder(visit) && |visit| == |cells| > 0
    requires forall c: Cell :: c in visit <==> c in cells
    ensures visit[|visit| - 1] == cells[|cells| - 1]
  {
    var n := |cells| - 1;
    assert visit[n] in visit && cells[n] in cells;
    var i :| 0 <= i <= n && cells[i] == visit[n];
    var j :| 0 <= j <= n && visit[j] == cells[n];
    if i < n {
      NeverBack(cells, i);
    }
    assert j < n ==> RowColumnLe(visit[j], visit[n]);
  }

  lemma NeverBack(cells: seq<Cell>, i: nat)
    requires WellPlaced(cells) && i < |cells| - 1
    ensures !RowColumnLe(cells[|cells| - 1], cells[i])
  {
    assert Apart(cells[i], cells[|cells| - 1]) && cells[i].colSpan >= 1;
  }

  lemma PrefixesInOrder(cells: seq<Cell>, visit: seq<Cell>, n: nat)
    requires WellPlaced(cells) && InRowOrder(visit) && n <= |cells| && n <= |visit|
    ensures WellPlaced(cells[..n]) && InRowOrder(visit[..n])
  {
    hide Apart, RowColumnLe;
  }

  /** The order they are parsed in is such an order. */
  lemma {:induction false} ParseOrderIsRowOrder(cells: seq<Cell>)
    requires WellPlaced(cells)
    ensures forall i, j :: 0 <= i < j < |cells| ==>
              cells[i].row < cells[j].row || (cells[i].row == cells[j].row && cells[i].col < cells[j].col)
    ensures InRowOrder(cells)
  {
    forall i, j | 0 <= i < j < |cells|
      ensures cells[i].row < cells[j].row || (cells[i].row == cells[j].row && cells[i].col < cells[j].col)
    {
      assert Apart(cells[i], cells[j]) && cells[i].colSpan >= 1;
    }
  }

  /** Parsed cells have no two in one place, so there is one way to visit them by row
      and column. */
  lemma {:induction false} OneRowOrder(cells: seq<Cell>, visit: seq<Cell>)
    requires WellPlaced(cells) && InRowOrder(visit) && multiset(visit) == multiset(cells)
    ensures visit == cells
  {
    hide WellPlaced, InRowOrder;
    SameMembers(visit, cells);
    if cells != [] {
      var n := |cells| - 1;
      SameLast(cells, visit);
      WithoutLast(cells);
      WithoutLast(visit);
      PrefixesInOrder(cells, visit, n);
      OneRowOrder(cells[..n], visit[..n]);
      assert visit == visit[..n] + [visit[n]];
      assert cells == cells[..n] + [cells[n]];
    }
  }

  /** What is stored of a parsed part comes back in the order it was parsed in. */
  lemma {:induction false} VisitIsParseOrder(group: seq<Part>, stored: seq<StoredCell>, p: nat)
    requires Visits(stored, group) && PartsInRowOrder(stored) && p < |group| && WellPlaced(group[p].cells)
    ensures VisitOf(stored, p) == group[p].cells
  {
    hide CellsOf, VisitOf, InRowOrder, PartsInRowOrder, WellPlaced;
    var all := CellsOf(group, |group|);
    VisitOfCells(group, |group|, p);
    forall c: Cell
      ensures multiset(VisitOf(stored, p))[c] == multiset(group[p].cells)[c]
    {
      VisitOfCount(stored, p, c);
      VisitOfCount(all, p, c);
    }
    VisitOfInRowOrder(stored, p);
    OneRowOrder(group[p].cells, VisitOf(stored, p));
  }

  /** The grids of the first `n` parts as they were parsed, one below the other. */
  function PartGrids(group: seq<Part>, n: nat): seq<seq<string>>
    requires n <= |group|
  {
    if n == 0 then [] else PartGrids(group, n - 1) + Grid(group[n - 1].cells)
  }

  lemma {:induction false} StackedAsParsed(group: seq<Part>, stored: seq<StoredCell>, n: nat)
    requires Visits(stored, group) && PartsInRowOrder(stored) && n <= |group|
    requires forall k :: 0 <= k < |group| ==> WellPlaced(group[k].cells)
    ensures Stacked(stored, n) == PartGrids(group, n)
  {
    hide Visits, PartsInRowOrder, WellPlaced, Grid;
    if n > 0 {
      StackedAsParsed(group, stored, n - 1);
      VisitIsParseOrder(group, stored, n - 1);
    }
  }

  /** From tags to grid: where every part holds the cells parsed from its HTML, stored
      and visited by row and column, the stitched table shows the parts' own grids,
      one below the other. */
  lemma {:induction false} ParsedPartsStack(group: seq<Part>, stored: seq<StoredCell>)
    requires IsGroup(group, true) && Visits(stored, group) && PartsInRowOrder(stored)
    requires (forall k :: 0 <= k < |group| ==> WellPlaced(group[k].cells)) && forall s <- stored :: s.0 < |group|
    ensures Grid(Attached(group, stored)) == PartGrids(group, |group|)
  {
    forall k | 0 <= k < |group|
      ensures group[k].Valid()
    {
      WellPlacedValid(group[k].cells);
    }
    hide IsGroup, Visits, Grid, Stacked, PartGrids, Attached, WellPlaced, Part.Valid;
    StitchIsConcatenation(group, stored);
    StackedAsParsed(group, stored, |group|);
  }

  lemma WellPlacedValid(cells: seq<Cell>)
    requires WellPlaced(cells)
    ensures forall c <- cells :: c.Valid()
  {
  }
}
