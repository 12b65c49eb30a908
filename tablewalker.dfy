/**
 * The table walker: it goes over the stored cells of a table, row by row, and gives each cell
 * its visual column, skipping the columns that cells from rows above occupy through their
 * `rowspan`. `CellSpans` remembers, per row below, which columns are taken and how wide the
 * taking span is.
 *
 * `NextSpec` is the walker's `next()` as a function of the cursor; the two classes are proved
 * to do what it says. `Variant` selects the end-of-row step: `AsWritten` is the source's,
 * which records the spans of the row's last cell a second time (see README, Findings);
 * `Corrected` records them once. The rest of the model walks with `Corrected`.
 */
module TableWalker {
  import opened Wrappers
  import opened TableModel

  /** Row index -> (column index -> width of the span that occupies columns from there). */
  type Spans = map<nat, map<nat, nat>>

  /** The spans recorded for one row; a row never recorded has none. */
  function RowSpans(spans: Spans, row: nat): map<nat, nat> {
    if row in spans then spans[row] else map[]
  }

  /** `CellSpans._check`: the width recorded at (row, column); 0 stands for `false`. */
  function Check(spans: Spans, row: nat, column: nat): nat {
    var rs := RowSpans(spans, row);
    if column in rs then rs[column] else 0
  }

  /** The recorded columns at or right of `column`. */
  function KeysFrom(rs: map<nat, nat>, column: nat): set<nat> {
    set k | k in rs && k >= column
  }

  lemma KeysFromShrinks(rs: map<nat, nat>, column: nat, next: nat)
    requires column in rs && column < next
    ensures |KeysFrom(rs, next)| < |KeysFrom(rs, column)|
  {
    var small, big := KeysFrom(rs, next), KeysFrom(rs, column);
    assert small <= big;
    assert column in big - small;
    assert big == small + (big - small);
    assert |big| == |small| + |big - small|;
  }

  /**
   * `CellSpans.getAdjustedColumnIndex` as a function of one row's spans: while a span is
   * recorded at the current column, step over its width.
   */
  function Adjusted(rs: map<nat, nat>, column: nat): nat
    decreases |KeysFrom(rs, column)|
  {
    if column in rs && rs[column] > 0 then
      KeysFromShrinks(rs, column, column + rs[column]);
      Adjusted(rs, column + rs[column])
    else
      column
  }

  /**
   * `CellSpans.recordSpans`, row by row as its loop goes: rows `row + 1 .. row + height - 1`
   * get `width` at `column`.
   */
  function Record(spans: Spans, row: nat, column: nat, height: nat, width: nat): Spans
    decreases height
  {
    if height <= 1 then
      spans
    else
      var before := Record(spans, row, column, height - 1, width);
      before[row + height - 1 := RowSpans(before, row + height - 1)[column := width]]
  }

  /** `_updateSpans`: record the spans of `cell` placed at (row, column). */
  function RecordCell(spans: Spans, row: nat, column: nat, cell: Cell): Spans {
    Record(spans, row, column, Span(cell.rowspan), Span(cell.colspan))
  }

  /** The heading counts every walker value carries (`_tableData`). */
  datatype TableData = TableData(headingRows: nat, headingColumns: nat)

  function Data(t: Table): TableData {
    TableData(HeadingRowsOf(t), HeadingColumnsOf(t))
  }

  /**
   * One value of the walk (`TableWalkerValue`). `index` is the cell's position in its stored
   * row: together with `row` it identifies the cell element.
   */
  datatype WalkerValue = WalkerValue(
    cell: Cell, row: nat, index: nat, column: nat, rowspan: nat, colspan: nat, table: TableData)

  /** The outcome of one call of `next()`; `Throws` is the TypeError of a row with no cells. */
  datatype Step = Done | Yield(value: WalkerValue) | Throws

  /** The walker's mutable fields: `row`, `cell`, `column`, `_previousCell` and the spans. */
  datatype Cursor = Cursor(row: nat, cell: nat, column: nat, previous: Option<Cell>, spans: Spans)

  datatype Variant = AsWritten | Corrected

  /** The cursor of a fresh walker. */
  function Start(): Cursor {
    Cursor(0, 0, 0, None, map[])
  }

  /** `startRow > row || ( endRow && row > endRow )` is false: the row is reported. */
  predicate InRange(startRow: nat, endRow: nat, row: nat) {
    startRow <= row && (endRow == 0 || row <= endRow)
  }

  /** A cursor a walker over `t` can be in; `previous` is the cell just before `cell`. */
  ghost predicate Consistent(t: Table, s: Cursor) {
    && s.row <= |t.rows|
    && (s.row < |t.rows| ==> s.cell <= |t.rows[s.row]|)
    && (s.row == |t.rows| ==> s.cell == 0)
    && (s.previous.Some? <==> s.cell > 0)
    && (s.previous.None? ==> s.column == 0)
    && (s.cell > 0 ==> s.row < |t.rows| && s.previous == Some(t.rows[s.row][s.cell - 1]))
  }

  /** How many cells of the current row are still to be read. */
  function RowRest(t: Table, s: Cursor): nat {
    if s.row < |t.rows| && s.cell <= |t.rows[s.row]| then |t.rows[s.row]| - s.cell else 0
  }

  /** What one pass through the body of `next()` does: return, or call `next()` again from `next`. */
  datatype Pass = Finish(step: Step, at: Cursor) | Again(next: Cursor)

  /** Cursor `n` is further on in storage order than `s`. */
  predicate Later(n: Cursor, s: Cursor) {
    n.row > s.row || (n.row == s.row && n.cell > s.cell)
  }

  /** One pass through the body of `next()` from cursor `s`. */
  function NextPass(t: Table, startRow: nat, endRow: nat, v: Variant, s: Cursor): (p: Pass)
    requires Consistent(t, s)
    ensures p.Again? ==> Consistent(t, p.next) && Later(p.next, s)
    ensures p.Finish? ==> Consistent(t, p.at)
  {
    if s.row == |t.rows| then
      Finish(Done, s)
    else
      var row := t.rows[s.row];
      // The previous cell's spans are recorded and the column moves past its width.
      var column := if s.previous.Some? then s.column + Span(s.previous.value.colspan) else s.column;
      var spans := if s.previous.Some? then RecordCell(s.spans, s.row, s.column, s.previous.value) else s.spans;
      if s.cell == |row| then
        // End of the row: the source records the previous cell's spans once more, at the
        // advanced column, and throws when the row had no cell at all.
        if v == AsWritten && s.previous.None? then
          Finish(Throws, s)
        else
          var spans' := if v == AsWritten then RecordCell(spans, s.row, column, s.previous.value) else spans;
          Again(Cursor(s.row + 1, 0, 0, None, spans'))
      else
        var cell := row[s.cell];
        var col := Adjusted(RowSpans(spans, s.row), column);
        var s' := Cursor(s.row, s.cell + 1, col, Some(cell), spans);
        if !InRange(startRow, endRow, s.row) then
          Again(s')
        else
          Finish(Yield(WalkerValue(cell, s.row, s.cell, col, Span(cell.rowspan), Span(cell.colspan), Data(t))), s')
  }

  /** `next()` as a function: the step it returns and the cursor it leaves behind. */
  function NextSpec(t: Table, startRow: nat, endRow: nat, v: Variant, s: Cursor): (r: (Step, Cursor))
    requires Consistent(t, s)
    ensures Consistent(t, r.1)
    ensures r.0.Done? ==> r.1.row == |t.rows|
    ensures r.0.Throws? ==> v == AsWritten
    ensures r.0.Yield? ==>
      && r.1.row < |t.rows| && r.1.cell > 0 && Later(r.1, s)
      && r.0.value.row == r.1.row && r.0.value.index == r.1.cell - 1
      && r.0.value.cell == t.rows[r.1.row][r.1.cell - 1]
      && r.1.previous == Some(r.0.value.cell) && r.1.column == r.0.value.column
      && InRange(startRow, endRow, r.0.value.row)
      && r.0.value.rowspan == Span(r.0.value.cell.rowspan)
      && r.0.value.colspan == Span(r.0.value.cell.colspan)
      && r.0.value.table == Data(t)
    decreases |t.rows| - s.row, RowRest(t, s)
  {
    match NextPass(t, startRow, endRow, v, s)
    case Finish(step, at) => (step, at)
    case Again(next) => NextSpec(t, startRow, endRow, v, next)
  }

  /** All values a walk yields from cursor `s`, and whether it ended by throwing. */
  datatype Walked = Walked(values: seq<WalkerValue>, threw: bool)

  /** Only the as-written walker can end by throwing: the corrected end-of-row step never reads a missing cell. */
  function WalkFrom(t: Table, startRow: nat, endRow: nat, v: Variant, s: Cursor): (r: Walked)
    requires Consistent(t, s)
    ensures r.threw ==> v == AsWritten
    decreases |t.rows| - s.row, RowRest(t, s)
  {
    var r := NextSpec(t, startRow, endRow, v, s);
    match r.0
    case Done => Walked([], false)
    case Throws => Walked([], true)
    case Yield(value) =>
      var rest := WalkFrom(t, startRow, endRow, v, r.1);
      Walked([value] + rest.values, rest.threw)
  }

  /** `[ ...new TableWalker( t, { startRow, endRow } ) ]`; an `endRow` of 0 means no bound. */
  function Walk(t: Table, startRow: nat, endRow: nat, v: Variant): (r: Walked)
    ensures r.threw ==> v == AsWritten
  {
    WalkFrom(t, startRow, endRow, v, Start())
  }

  /** `CellSpans`: the spans recorded so far, as a field the methods reassign. */
  class CellSpans {
    var spans: Spans

    constructor ()
      ensures spans == map[]
    {
      spans := map[];
    }

    /**
     * `getAdjustedColumnIndex`: the first column at or right of `column` with no span, reached
     * by stepping over the spans stacked from there.
     */
    method GetAdjustedColumnIndex(row: nat, column: nat) returns (c: nat)
      ensures c == Adjusted(RowSpans(spans, row), column)
      ensures c >= column && Check(spans, row, c) == 0
    {
      var rs := RowSpans(spans, row);
      var span := Check(spans, row, column);
      c := column;
      while span != 0
        invariant c >= column && span == Check(spans, row, c)
        invariant Adjusted(rs, c) == Adjusted(rs, column)
        decreases |KeysFrom(rs, c)|
      {
        KeysFromShrinks(rs, c, c + span);
        c := c + span;
        span := Check(spans, row, c);
      }
    }

    /** `recordSpans`: the loop over the rows below `rowIndex` that the cell reaches. */
    method RecordSpans(rowIndex: nat, columnIndex: nat, height: nat, width: nat)
      modifies this
      ensures spans == Record(old(spans), rowIndex, columnIndex, height, width)
    {
      var rowToUpdate := rowIndex + 1;
      while rowToUpdate < rowIndex + height
        invariant rowIndex + 1 <= rowToUpdate
        invariant rowToUpdate <= rowIndex + height || rowToUpdate == rowIndex + 1
        invariant spans == Record(old(spans), rowIndex, columnIndex, rowToUpdate - rowIndex, width)
      {
        spans := spans[rowToUpdate := RowSpans(spans, rowToUpdate)[columnIndex := width]];
        rowToUpdate := rowToUpdate + 1;
      }
    }
  }

  /** `TableWalker`: its fields, `next()` and `_updateSpans()`, as the source has them. */
  class TableWalker {
    const table: Table
    const startRow: nat
    /** 0 when the option was absent or 0: both mean "no upper bound". */
    const endRow: nat
    var row: nat
    var cell: nat
    var column: nat
    var previousCell: Option<Cell>
    const cellSpans: CellSpans
    const tableData: TableData

    function State(): Cursor
      reads this, cellSpans
    {
      Cursor(row, cell, column, previousCell, cellSpans.spans)
    }

    ghost predicate Valid()
      reads this, cellSpans
    {
      Consistent(table, State()) && tableData == Data(table)
    }

    /** `new TableWalker( table, { startRow, endRow } )`. */
    constructor (table: Table, startRow: Option<nat>, endRow: Option<nat>)
      ensures Valid() && fresh(cellSpans)
      ensures this.table == table && State() == Start()
      ensures this.startRow == startRow.GetOr(0) && this.endRow == endRow.GetOr(0)
      ensures tableData.headingRows == HeadingRowsOf(table)
      ensures tableData.headingColumns == HeadingColumnsOf(table)
    {
      this.table := table;
      this.startRow := startRow.GetOr(0);
      this.endRow := endRow.GetOr(0);
      row, cell, column := 0, 0, 0;
      previousCell := None;
      cellSpans := new CellSpans();
      tableData := TableData(HeadingRowsOf(table), HeadingColumnsOf(table));
    }

    /** `_updateSpans()`: record the previous cell's spans at the current place. */
    method UpdateSpans() returns (colspan: nat)
      requires previousCell.Some?
      modifies cellSpans
      ensures colspan == Span(previousCell.value.colspan) && colspan >= 1
      ensures cellSpans.spans == RecordCell(old(cellSpans.spans), row, column, previousCell.value)
    {
      colspan := Span(previousCell.value.colspan);
      var rowspan := Span(previousCell.value.rowspan);
      cellSpans.RecordSpans(row, column, rowspan, colspan);
    }

    /**
     * One pass through the body of `next()`: `None` where the source returns `this.next()`,
     * that is, at the end of a row and for a cell outside `startRow..endRow`.
     */
    method NextPassOnce() returns (result: Option<Step>)
      requires Valid()
      modifies this, cellSpans
      ensures Valid()
      ensures NextPass(table, startRow, endRow, AsWritten, old(State()))
        == if result.Some? then Finish(result.value, State()) else Again(State())
    {
      if row == |table.rows| {
        return Some(Done);
      }
      var current := table.rows[row];
      if previousCell.Some? {
        var colspan := UpdateSpans();
        column := column + colspan;
      }
      if cell == |current| {
        if previousCell.None? {
          return Some(Throws);
        }
        var colspan := UpdateSpans();
        cell, column, row, previousCell := 0, 0, row + 1, None;
        return None;
      }
      var c := current[cell];
      column := cellSpans.GetAdjustedColumnIndex(row, column);
      previousCell := Some(c);
      cell := cell + 1;
      if startRow > row || (endRow != 0 && row > endRow) {
        return None;
      }
      return Some(Yield(WalkerValue(c, row, cell - 1, column, Span(c.rowspan), Span(c.colspan), tableData)));
    }

    /** `next()`: passes through its body until one of them returns a value. */
    method Next() returns (step: Step)
      requires Valid()
      modifies this, cellSpans
      ensures Valid()
      ensures (step, State()) == NextSpec(table, startRow, endRow, AsWritten, old(State()))
    {
      while true
        invariant Valid()
        invariant NextSpec(table, startRow, endRow, AsWritten, State())
          == NextSpec(table, startRow, endRow, AsWritten, old(State()))
        decreases |table.rows| - row, RowRest(table, State())
      {
        var result := NextPassOnce();
        if result.Some? {
          return result.value;
        }
      }
    }

    /** Iterating the walker to its end (`for ... of`, `[ ...walker ]`). */
    method Collect() returns (values: seq<WalkerValue>, threw: bool)
      requires Valid()
      modifies this, cellSpans
      ensures Walked(values, threw) == WalkFrom(table, startRow, endRow, AsWritten, old(State()))
    {
      values, threw := [], false;
      ghost var s0 := State();
      while true
        invariant Valid()
        invariant WalkFrom(table, startRow, endRow, AsWritten, s0).values
          == values + WalkFrom(table, startRow, endRow, AsWritten, State()).values
        invariant WalkFrom(table, startRow, endRow, AsWritten, s0).threw
          == WalkFrom(table, startRow, endRow, AsWritten, State()).threw
        decreases |table.rows| - row, RowRest(table, State())
      {
        var step := Next();
        match step
        case Done =>
          return;
        case Throws =>
          threw := true;
          return;
        case Yield(value) =>
          values := values + [value];
      }
    }
  }
}
