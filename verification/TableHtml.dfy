/** From table HTML to cells on a grid: _TableHtmlParser and its slot search in
    worker/app/pipeline/document_parser.py. Compare section 4.9.12.1, "Forming a
    table", of the HTML Living Standard. */
module TableHtml {
  import opened Options

  type Slot = (nat, nat)

  datatype Cell = Cell(row: nat, col: nat, rowSpan: nat, colSpan: nat, text: string, isHeader: bool) {
    /** The slots a cell takes: a rectangle from its anchor. */
    predicate Covers(r: int, c: int) {
      row <= r < row + rowSpan && col <= c < col + colSpan
    }

    ghost predicate Valid() {
      rowSpan >= 1 && colSpan >= 1
    }
  }

  /** What the HTML parser reports. A span attribute that is missing or not a
      number is `None`. */
  datatype Event =
    | StartTag(tag: string, rowspan: Option<int>, colspan: Option<int>)
    | EndTag(tag: string)
    | Data(data: string)

  /** `_positive_int`: at least 1. */
  function PositiveInt(value: Option<int>): (n: nat)
    ensures n >= 1
  {
    match value
    case Some(v) => if v < 1 then 1 else v
    case None => 1
  }

  /** `a` comes before `b`: in an earlier row, or wholly to its left in the same row. */
  predicate Before(a: Cell, b: Cell) {
    a.row < b.row || (a.row == b.row && a.col + a.colSpan <= b.col)
  }

  /** How an earlier cell and a later one may meet: the earlier one never covers the
      later one's anchor, and if they share a slot it is right of the anchor's column. */
  ghost predicate Apart(a: Cell, b: Cell) {
    && Before(a, b)
    && !a.Covers(b.row, b.col)
    && forall r, c :: a.Covers(r, c) && b.Covers(r, c) ==> b.col < c
  }

  ghost predicate ShareSlot(a: Cell, b: Cell) {
    exists r, c :: a.Covers(r, c) && b.Covers(r, c)
  }

  /** In the later cell's own row, right of its anchor and within its columns, lies a
      slot of the earlier one. */
  ghost predicate ReachesUnder(b: Cell, a: Cell) {
    exists c :: b.col < c < b.col + b.colSpan && a.Covers(b.row, c)
  }

  ghost predicate AnyCovers(placed: seq<Cell>, r: int, c: int) {
    exists k :: 0 <= k < |placed| && placed[k].Covers(r, c)
  }

  /** A started cell, whatever text it has collected since. */
  ghost predicate IsPlaced(placed: seq<Cell>, cell: Cell) {
    exists k :: 0 <= k < |placed| && placed[k].(text := cell.text) == cell
  }

  /** Where the parser stands: the row and column cursor, the cells started, the
      cells closed and the open one. */
  datatype Cursor = Cursor(row: int, col: nat, placed: seq<Cell>, cells: seq<Cell>, current: Option<Cell>)

  const START := Cursor(-1, 0, [], [], None)

  predicate IsCellTag(tag: string) {
    tag == "td" || tag == "th"
  }

  function Closed(s: Cursor): Cursor {
    s.(cells := s.cells + if s.current.Some? then [s.current.value] else [], current := None)
  }

  /** What one event does. A cell goes to the first free slot of the current row;
      a cell that is still open when the next one starts is lost, but its slots stay
      taken. */
  ghost predicate Follows(s: Cursor, e: Event, t: Cursor) {
    match e
    case StartTag(tag, rowspan, colspan) =>
      if tag == "tr" then t == s.(row := s.row + 1, col := 0)
      else if IsCellTag(tag) then
        && t.row == (if s.row < 0 then 0 else s.row) && t.cells == s.cells && t.current.Some?
        && var cell := t.current.value;
           && cell.row == t.row && FirstFree(s.placed, cell, s.col)
           && cell.rowSpan == PositiveInt(rowspan) && cell.colSpan == PositiveInt(colspan)
           && cell.text == "" && cell.isHeader == (tag == "th")
           && t.placed == s.placed + [cell] && t.col == cell.col + cell.colSpan
      else t == s
    case EndTag(tag) => t == if IsCellTag(tag) then Closed(s) else s
    case Data(data) =>
      t == if s.current.Some? then s.(current := Some(s.current.value.(text := s.current.value.text + data))) else s
  }

  /** What tags do: a row tag starts the next row, a cell tag places a cell, the end of one
      closes it, and any other tag changes nothing. */
  lemma {:induction false} TagsMean(s: Cursor, tag: string, rowspan: Option<int>, colspan: Option<int>, t: Cursor)
    requires Follows(s, StartTag(tag, rowspan, colspan), t)
    ensures if tag == "tr" then t.row == s.row + 1 && t.col == 0 && t.placed == s.placed && t.current == s.current
            else if tag == "td" || tag == "th" then
              && t.row == (if s.row < 0 then 0 else s.row)
              && t.current.Some? && t.placed == s.placed + [t.current.value]
              && t.current.value.row == t.row && t.current.value.isHeader == (tag == "th")
              && t.current.value.rowSpan == (if rowspan.Some? && rowspan.value > 1 then rowspan.value else 1)
              && t.current.value.colSpan == (if colspan.Some? && colspan.value > 1 then colspan.value else 1)
              && t.col == t.current.value.col + t.current.value.colSpan
            else t == s
    ensures t.cells == s.cells
  {
  }

  lemma {:induction false} EndTagsMean(s: Cursor, tag: string, t: Cursor)
    requires Follows(s, EndTag(tag), t)
    ensures if tag == "td" || tag == "th" then
              t == s.(current := None, cells := s.cells + if s.current.Some? then [s.current.value] else [])
            else t == s
  {
  }

  class TableHtmlParser {
    var cells: seq<Cell>
    var occupied: set<Slot>
    var row: int
    var col: nat
    var current: Option<Cell>
    var depth: nat
    /** Every cell started so far, also those whose end never came. */
    ghost var placed: seq<Cell>

    ghost predicate Valid()
      reads this
    {
      && row >= -1
      && (forall k :: 0 <= k < |placed| ==> placed[k].Valid() && placed[k].row <= row)
      && (forall k :: 0 <= k < |placed| && placed[k].row == row ==> placed[k].col + placed[k].colSpan <= col)
      && (forall s: Slot :: s in occupied <==> AnyCovers(placed, s.0, s.1))
      && (forall i, j :: 0 <= i < j < |placed| ==> Apart(placed[i], placed[j]))
      && (forall i :: 0 <= i < |cells| ==> IsPlaced(placed, cells[i]))
      && (forall i, j :: 0 <= i < j < |cells| ==> Apart(cells[i], cells[j]))
      && (current.Some? ==>
            IsPlaced(placed, current.value) && forall i :: 0 <= i < |cells| ==> Apart(cells[i], current.value))
    }

    ghost function View(): Cursor
      reads this
    {
      Cursor(row, col, placed, cells, current)
    }

    constructor ()
      ensures Valid() && View() == START
    {
      cells, occupied, row, col, current, depth, placed := [], {}, -1, 0, None, 0, [];
    }

    /** Occupied slots of the current row from column `c` on. */
    ghost function Ahead(c: nat): set<Slot>
      reads this
    {
      set s | s in occupied && s.0 == row && s.1 >= c
    }

    /** Moves to the first free slot of the row. */
    method FindSlot()
      requires row >= 0
      modifies this`col
      ensures col >= old(col) && (row, col) !in occupied
      ensures forall c: nat :: old(col) <= c < col ==> (row, c) in occupied
    {
      while (row, col) in occupied
        invariant col >= old(col)
        invariant forall c: nat :: old(col) <= c < col ==> (row, c) in occupied
        decreases |Ahead(col)|
      {
        assert (row, col) in Ahead(col) && Ahead(col + 1) == Ahead(col) - {(row, col)};
        col := col + 1;
      }
    }

    /** Marks a cell's rectangle as occupied. */
    method Mark(cell: Cell)
      modifies this`occupied
      ensures forall s: Slot :: s in occupied <==> s in old(occupied) || cell.Covers(s.0, s.1)
    {
      for r := cell.row to cell.row + cell.rowSpan
        invariant forall s: Slot :: s in occupied <==> s in old(occupied) || (cell.Covers(s.0, s.1) && s.0 < r)
      {
        for c := cell.col to cell.col + cell.colSpan
          invariant forall s: Slot :: s in occupied <==>
            s in old(occupied) || (cell.Covers(s.0, s.1) && (s.0 < r || (s.0 == r && s.1 < c)))
        {
          occupied := occupied + {(r, c)};
        }
      }
    }

    /** The cell branch of handle_starttag: the next cell of the row goes to the
        first free slot. */
    method StartCell(rowSpan: nat, colSpan: nat, isHeader: bool)
      requires Valid() && rowSpan >= 1 && colSpan >= 1
      modifies this
      ensures Valid() && cells == old(cells) && row == if old(row) < 0 then 0 else old(row)
      ensures current.Some? && placed == old(placed) + [current.value] && current.value.row == row
      ensures col == current.value.col + current.value.colSpan
      ensures current.value == Cell(row, current.value.col, rowSpan, colSpan, "", isHeader)
      ensures FirstFree(old(placed), current.value, old(col))
      ensures (exists k :: 0 <= k < |old(placed)| && ShareSlot(old(placed)[k], current.value))
          <==> TakenAhead(old(occupied), current.value)
    {
      row := if row < 0 then 0 else row;
      FindSlot();
      var cell := Cell(row, col, rowSpan, colSpan, "", isHeader);
      FreeSlotFound(placed, occupied, cell, old(col));
      OverlapSeenAhead(placed, occupied, cell);
      Mark(cell);
      ghost var all := placed + [cell];
      forall s: Slot
        ensures s in occupied <==> AnyCovers(all, s.0, s.1)
      {
        OneMoreCovers(placed, cell, s.0, s.1);
      }
      forall i | 0 <= i < |cells|
        ensures IsPlaced(all, cells[i]) && Apart(cells[i], cell)
      {
        StillPlaced(placed, cells[i], cell);
      }
      assert all[|placed|].(text := cell.text) == cell;
      assert IsPlaced(all, cell);
      current := Some(cell);
      placed := all;
      col := col + cell.colSpan;
    }

    /** handle_starttag. */
    method HandleStartTag(tag: string, rowspan: Option<int>, colspan: Option<int>)
      requires Valid()
      modifies this
      ensures Valid() && Follows(old(View()), StartTag(tag, rowspan, colspan), View())
    {
      if tag == "tr" {
        row := row + 1;
        col := 0;
        return;
      }
      if !IsCellTag(tag) {
        if current.Some? {
          depth := depth + 1;
        }
        return;
      }
      StartCell(PositiveInt(rowspan), PositiveInt(colspan), tag == "th");
    }

    /** _close_cell. */
    method CloseCell()
      requires Valid()
      modifies this
      ensures Valid() && View() == Closed(old(View()))
    {
      if current.None? {
        return;
      }
      cells := cells + [current.value];
      current := None;
      depth := 0;
    }

    /** handle_endtag. */
    method HandleEndTag(tag: string)
      requires Valid()
      modifies this
      ensures Valid() && Follows(old(View()), EndTag(tag), View())
    {
      if IsCellTag(tag) {
        CloseCell();
      } else if current.Some? && depth > 0 {
        depth := depth - 1;
      }
    }

    /** handle_data. */
    method HandleData(data: string)
      requires Valid()
      modifies this
      ensures Valid() && Follows(old(View()), Data(data), View())
    {
      hide Apart, IsPlaced, AnyCovers, FirstFree;
      if current.Some? {
        var longer := current.value.(text := current.value.text + data);
        TextDoesNotMatter(placed, cells, current.value, longer);
        current := Some(longer);
      }
    }

    /** feed, with the run it made. */
    method Feed(events: seq<Event>) returns (ghost run: seq<Cursor>)
      requires Valid()
      modifies this
      ensures Valid() && IsRun(old(View()), events, run) && View() == run[|events|]
    {
      run := [View()];
      for k := 0 to |events|
        invariant Valid() && IsRun(old(View()), events[..k], run) && View() == run[k]
      {
        match events[k] {
          case StartTag(tag, rowspan, colspan) => HandleStartTag(tag, rowspan, colspan);
          case EndTag(tag) => HandleEndTag(tag);
          case Data(data) => HandleData(data);
        }
        RunExtends(old(View()), events[..k], run, events[k], View());
        assert events[..k + 1] == events[..k] + [events[k]];
        run := run + [View()];
      }
      assert events[..|events|] == events;
    }
  }

  lemma TextDoesNotMatter(placed: seq<Cell>, cells: seq<Cell>, cell: Cell, longer: Cell)
    requires IsPlaced(placed, cell) && longer == cell.(text := longer.text)
    requires forall i :: 0 <= i < |cells| ==> Apart(cells[i], cell)
    ensures IsPlaced(placed, longer) && forall i :: 0 <= i < |cells| ==> Apart(cells[i], longer)
  {
    var k :| 0 <= k < |placed| && placed[k].(text := cell.text) == cell;
    assert placed[k].(text := longer.text) == longer;
    forall i | 0 <= i < |cells|
      ensures Apart(cells[i], longer)
    {
      assert Apart(cells[i], cell);
      assert forall r, c :: longer.Covers(r, c) ==> cell.Covers(r, c);
    }
  }

  ghost predicate IsRun(start: Cursor, events: seq<Event>, run: seq<Cursor>) {
    && |run| == |events| + 1 && run[0] == start
    && forall k :: 0 <= k < |events| ==> Follows(run[k], events[k], run[k + 1])
  }

  lemma RunExtends(start: Cursor, events: seq<Event>, run: seq<Cursor>, e: Event, t: Cursor)
    requires IsRun(start, events, run) && Follows(run[|events|], e, t)
    ensures IsRun(start, events + [e], run + [t])
  {
    hide Follows;
    var longer := run + [t];
    forall k | 0 <= k < |events + [e]|
      ensures Follows(longer[k], (events + [e])[k], longer[k + 1])
    {
      if k < |events| {
        assert longer[k] == run[k] && longer[k + 1] == run[k + 1];
        assert Follows(run[k], events[k], run[k + 1]);
      }
    }
  }

  /** The cells of a table, from any stream of tags: what a run over the tags
      closes, the last open cell included. No two cells share an anchor, an earlier
      cell never covers a later one's anchor, and where two overlap it is right of
      the later one's anchor column. */
  method ParseTable(events: seq<Event>) returns (cells: seq<Cell>, ghost run: seq<Cursor>)
    ensures IsRun(START, events, run) && cells == Closed(run[|events|]).cells
    ensures WellPlaced(cells)
    ensures forall i, j :: 0 <= i < j < |cells| ==>
              (ShareSlot(cells[i], cells[j]) <==> ReachesUnder(cells[j], cells[i]))
  {
    var parser := new TableHtmlParser();
    run := parser.Feed(events);
    parser.CloseCell();
    cells := parser.cells;
    forall k | 0 <= k < |cells|
      ensures cells[k].Valid()
    {
      assert IsPlaced(parser.placed, cells[k]);
    }
    forall i, j | 0 <= i < j < |cells|
      ensures ShareSlot(cells[i], cells[j]) <==> ReachesUnder(cells[j], cells[i])
    {
      OverlapExactly(cells, i, j);
    }
  }

  ghost predicate WellPlaced(cells: seq<Cell>) {
    && (forall k :: 0 <= k < |cells| ==> cells[k].Valid())
    && (forall i, j :: 0 <= i < j < |cells| ==> Apart(cells[i], cells[j]))
  }

  lemma ApartShareExactly(a: Cell, b: Cell)
    requires Apart(a, b) && a.Valid() && b.Valid()
    ensures ShareSlot(a, b) <==> ReachesUnder(b, a)
  {
    if r, c :| a.Covers(r, c) && b.Covers(r, c) {
      assert a.Covers(b.row, c);
    }
    if c :| b.col < c < b.col + b.colSpan && a.Covers(b.row, c) {
      assert b.Covers(b.row, c);
    }
  }

  /** When two cells of a table share a slot: exactly when the later one's column span
      reaches, in its own row, under a slot of the earlier one. */
  lemma {:induction false} OverlapExactly(cells: seq<Cell>, i: nat, j: nat)
    requires WellPlaced(cells) && i < j < |cells|
    ensures ShareSlot(cells[i], cells[j]) <==> ReachesUnder(cells[j], cells[i])
  {
    assert Apart(cells[i], cells[j]);
    ApartShareExactly(cells[i], cells[j]);
  }

  /** Some slot of the cell's first row, other than its anchor, is taken. */
  ghost predicate TakenAhead(occupied: set<Slot>, cell: Cell) {
    exists c: nat :: cell.col < c < cell.col + cell.colSpan && (cell.row, c) in occupied
  }

  /** So whether a new cell will share a slot can be seen in the occupied slots of its
      row before it is placed. */
  lemma {:induction false} OverlapSeenAhead(placed: seq<Cell>, occupied: set<Slot>, cell: Cell)
    requires forall s: Slot :: s in occupied <==> AnyCovers(placed, s.0, s.1)
    requires cell.Valid() && forall k :: 0 <= k < |placed| ==> placed[k].Valid() && Apart(placed[k], cell)
    ensures (exists k :: 0 <= k < |placed| && ShareSlot(placed[k], cell)) <==> TakenAhead(occupied, cell)
  {
    if k :| 0 <= k < |placed| && ShareSlot(placed[k], cell) {
      ApartShareExactly(placed[k], cell);
      var c :| cell.col < c < cell.col + cell.colSpan && placed[k].Covers(cell.row, c);
      assert (cell.row, c as nat) in occupied;
    }
    if c: nat :| cell.col < c < cell.col + cell.colSpan && (cell.row, c) in occupied {
      assert AnyCovers(placed, cell.row, c);
      var k :| 0 <= k < |placed| && placed[k].Covers(cell.row, c);
      ApartShareExactly(placed[k], cell);
    }
  }

  /** In particular a later cell without a column span shares no slot. */
  lemma {:induction false} NoOverlapWithoutColumnSpans(cells: seq<Cell>, i: nat, j: nat)
    requires WellPlaced(cells) && i < j < |cells| && cells[j].colSpan == 1
    ensures !ShareSlot(cells[i], cells[j])
  {
    OverlapExactly(cells, i, j);
  }

  /** Two cells, the second two rows tall; then a row with one cell two columns wide. */
  function OverlappingTags(): seq<Event> {
    [StartTag("tr", None, None), StartTag("td", None, None), EndTag("td"), StartTag("td", Some(2), None), EndTag("td"),
     StartTag("tr", None, None), StartTag("td", None, Some(2)), EndTag("td")]
  }

  /** The cells any run over these tags ends with; the last two share a slot. */
  lemma {:induction false} OverlappingRun(run: seq<Cursor>)
    requires IsRun(START, OverlappingTags(), run)
    ensures var cells := Closed(run[8]).cells;
            && cells == [Cell(0, 0, 1, 1, "", false), Cell(0, 1, 2, 1, "", false), Cell(1, 0, 1, 2, "", false)]
            && ShareSlot(cells[1], cells[2])
  {
    var tags := OverlappingTags();
    var a, b, c := Cell(0, 0, 1, 1, "", false), Cell(0, 1, 2, 1, "", false), Cell(1, 0, 1, 2, "", false);
    assert Follows(run[0], tags[0], run[1]);
    assert Follows(run[1], tags[1], run[2]);
    OnlyFree([], run[2].current.value, 0);
    assert run[2] == Cursor(0, 1, [a], [], Some(a));
    assert Follows(run[2], tags[2], run[3]);
    assert Follows(run[3], tags[3], run[4]);
    OnlyFree([a], run[4].current.value, 1);
    assert run[4] == Cursor(0, 2, [a, b], [a], Some(b));
    assert Follows(run[4], tags[4], run[5]);
    assert Follows(run[5], tags[5], run[6]);
    assert Follows(run[6], tags[6], run[7]);
    OnlyFree([a, b], run[7].current.value, 0);
    assert run[7] == Cursor(1, 2, [a, b, c], [a, b], Some(c));
    assert Follows(run[7], tags[7], run[8]);
    assert b.Covers(1, 1) && c.Covers(1, 1);
  }

  /** A slot that is free is the first free one. */
  lemma OnlyFree(placed: seq<Cell>, cell: Cell, start: nat)
    requires FirstFree(placed, cell, start) && !AnyCovers(placed, cell.row, start)
    ensures cell.col == start
  {
  }

  /** The parser does make such a table. */
  method OverlapFromTags() returns (cells: seq<Cell>)
    ensures |cells| == 3 && ShareSlot(cells[1], cells[2])
  {
    ghost var run;
    cells, run := ParseTable(OverlappingTags());
    OverlappingRun(run);
  }

  lemma FreeSlotFound(placed: seq<Cell>, occupied: set<Slot>, cell: Cell, start: nat)
    requires forall s: Slot :: s in occupied <==> AnyCovers(placed, s.0, s.1)
    requires start <= cell.col && (cell.row, cell.col) !in occupied
    requires forall c: nat :: start <= c < cell.col ==> (cell.row, c) in occupied
    requires forall k :: 0 <= k < |placed| ==> Before(placed[k], cell.(col := start))
    ensures FirstFree(placed, cell, start)
    ensures forall k :: 0 <= k < |placed| ==> Apart(placed[k], cell)
  {
    assert !AnyCovers(placed, cell.row, cell.col);
    forall k | 0 <= k < |placed|
      ensures !placed[k].Covers(cell.row, cell.col) && Apart(placed[k], cell)
    {
      assert !placed[k].Covers(cell.row, cell.col);
      RectanglesApart(placed[k], cell);
    }
    forall c: nat | start <= c < cell.col
      ensures AnyCovers(placed, cell.row, c)
    {
      assert (cell.row, c) in occupied;
    }
  }

  lemma StillPlaced(placed: seq<Cell>, cell: Cell, next: Cell)
    requires IsPlaced(placed, cell) && forall k :: 0 <= k < |placed| ==> Apart(placed[k], next)
    ensures IsPlaced(placed + [next], cell) && Apart(cell, next)
  {
    var k :| 0 <= k < |placed| && placed[k].(text := cell.text) == cell;
    assert (placed + [next])[k] == placed[k];
    assert Apart(placed[k], next);
    RectanglesApart(cell, next);
  }

  /** The anchor is the first slot of its row, from `start` on, that no cell takes. */
  ghost predicate FirstFree(placed: seq<Cell>, cell: Cell, start: nat) {
    && start <= cell.col
    && (forall k :: 0 <= k < |placed| ==> !placed[k].Covers(cell.row, cell.col))
    && forall c: nat :: start <= c < cell.col ==> AnyCovers(placed, cell.row, c)
  }

  lemma OneMoreCovers(placed: seq<Cell>, cell: Cell, r: int, c: int)
    ensures AnyCovers(placed + [cell], r, c) <==> AnyCovers(placed, r, c) || cell.Covers(r, c)
  {
    var all := placed + [cell];
    if AnyCovers(placed, r, c) {
      var k :| 0 <= k < |placed| && placed[k].Covers(r, c);
      assert all[k].Covers(r, c);
    }
    if cell.Covers(r, c) {
      assert all[|placed|].Covers(r, c);
    }
  }

  /** A cell that starts no later than row `b.row` and leaves `b`'s anchor free
      leaves the whole column below that anchor free. */
  lemma RectanglesApart(a: Cell, b: Cell)
    requires Before(a, b) && !a.Covers(b.row, b.col)
    ensures Apart(a, b)
  {
  }
}
