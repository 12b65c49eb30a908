/**
 * The table as the editing model stores it: a table holds rows, a row holds the cells that
 * START in it (a cell spanning rows below is stored only in its top row). Attributes that the
 * model may leave out are `Option`s.
 */
module TableModel {
  import opened Wrappers

  /** A block inside a table cell; the merge content rule only tells paragraphs apart. */
  datatype Block = Paragraph(text: string) | OtherBlock(name: string)

  /**
   * A `tableCell` element: its `rowspan`, `colspan` and `colwidth` attributes, its block
   * children and the remaining (string-valued) cell attributes such as cell properties.
   */
  datatype Cell = Cell(
    rowspan: Option<nat>,
    colspan: Option<nat>,
    colwidth: Option<int>,
    content: seq<Block>,
    attrs: map<string, string>)

  type Row = seq<Cell>

  /** A `table` element: its stored rows, its heading counts and its other attributes. */
  datatype Table = Table(
    rows: seq<Row>,
    headingRows: Option<nat>,
    headingColumns: Option<nat>,
    attrs: map<string, string>)

  /** Where a cell is stored: the index of its row in the table and its index in that row. */
  datatype Addr = Addr(row: nat, index: nat)

  /** `attribute || 1`: an absent span, and a span of 0, read as 1. */
  function Span(a: Option<nat>): nat {
    if a.Some? && a.value > 0 then a.value else 1
  }

  /** `table.getAttribute( 'headingRows' ) || 0`. */
  function HeadingRowsOf(t: Table): nat {
    t.headingRows.GetOr(0)
  }

  /** `table.getAttribute( 'headingColumns' ) || 0`. */
  function HeadingColumnsOf(t: Table): nat {
    t.headingColumns.GetOr(0)
  }

  predicate ValidAddr(t: Table, a: Addr) {
    a.row < |t.rows| && a.index < |t.rows[a.row]|
  }

  function CellAt(t: Table, a: Addr): Cell
    requires ValidAddr(t, a)
  {
    t.rows[a.row][a.index]
  }

  /** Same number of rows, and the same number of cells in each row. */
  predicate SameShape(a: Table, b: Table) {
    |a.rows| == |b.rows| && forall i :: 0 <= i < |a.rows| ==> |a.rows[i]| == |b.rows[i]|
  }

  /** The table with the cell at `a` replaced by `c`: no cell moves and no other cell changes. */
  function SetCell(t: Table, a: Addr, c: Cell): (r: Table)
    requires ValidAddr(t, a)
    ensures SameShape(r, t)
    ensures CellAt(r, a) == c
    ensures forall x :: ValidAddr(t, x) && x != a ==> CellAt(r, x) == CellAt(t, x)
    ensures r.headingRows == t.headingRows && r.headingColumns == t.headingColumns && r.attrs == t.attrs
  {
    t.(rows := t.rows[a.row := t.rows[a.row][a.index := c]])
  }

  /** Two tables of the same shape, attributes and cells are the same table. */
  lemma SameCells(a: Table, b: Table)
    requires SameShape(a, b)
    requires forall x :: ValidAddr(a, x) ==> CellAt(a, x) == CellAt(b, x)
    requires a.headingRows == b.headingRows && a.headingColumns == b.headingColumns && a.attrs == b.attrs
    ensures a == b
  {
    forall i | 0 <= i < |a.rows|
      ensures a.rows[i] == b.rows[i]
    {
      forall j | 0 <= j < |a.rows[i]|
        ensures a.rows[i][j] == b.rows[i][j]
      {
        assert CellAt(a, Addr(i, j)) == CellAt(b, Addr(i, j));
      }
    }
  }

  /** Writing a cell back unchanged leaves the table as it was. */
  lemma SetCellSame(t: Table, a: Addr)
    requires ValidAddr(t, a)
    ensures SetCell(t, a, CellAt(t, a)) == t
  {
    assert t.rows[a.row][a.index := CellAt(t, a)] == t.rows[a.row];
    assert t.rows[a.row := t.rows[a.row]] == t.rows;
  }

  /** Of two writes to the same cell only the second is seen. */
  lemma SetCellTwice(t: Table, a: Addr, c: Cell, d: Cell)
    requires ValidAddr(t, a)
    ensures SetCell(SetCell(t, a, c), a, d) == SetCell(t, a, d)
  {
    assert t.rows[a.row][a.index := c][a.index := d] == t.rows[a.row][a.index := d];
  }

  /** Where the cell stored at `x` is once the cell at `a` has been taken out of its row. */
  function AfterRemoveCell(x: Addr, a: Addr): Addr
    requires x != a
  {
    if x.row == a.row && x.index > a.index then Addr(x.row, x.index - 1) else x
  }

  /** The table with the cell at `a` taken out of its row: the later cells of that row move left. */
  function RemoveCell(t: Table, a: Addr): (r: Table)
    requires ValidAddr(t, a)
    ensures |r.rows| == |t.rows| && |r.rows[a.row]| + 1 == |t.rows[a.row]|
    ensures forall i :: 0 <= i < |t.rows| && i != a.row ==> r.rows[i] == t.rows[i]
    ensures forall x :: ValidAddr(t, x) && x != a ==>
      ValidAddr(r, AfterRemoveCell(x, a)) && CellAt(r, AfterRemoveCell(x, a)) == CellAt(t, x)
    ensures r.headingRows == t.headingRows && r.headingColumns == t.headingColumns && r.attrs == t.attrs
  {
    var row := t.rows[a.row];
    t.(rows := t.rows[a.row := row[..a.index] + row[a.index + 1..]])
  }

  /** Where the cell stored at `x` is once row `r` has been taken out. */
  function AfterRemoveRow(x: Addr, r: nat): Addr
    requires x.row != r
  {
    if x.row > r then Addr(x.row - 1, x.index) else x
  }

  /** The table with its row `r` taken out: the later rows move up. */
  function RemoveRow(t: Table, r: nat): (result: Table)
    requires r < |t.rows|
    ensures |result.rows| + 1 == |t.rows|
    ensures forall i :: 0 <= i < |result.rows| ==> result.rows[i] == t.rows[if i < r then i else i + 1]
    ensures result.headingRows == t.headingRows && result.headingColumns == t.headingColumns
    ensures result.attrs == t.attrs
  {
    t.(rows := t.rows[..r] + t.rows[r + 1..])
  }

  /** No cell but those of row `r` is lost, and each keeps its place within its row. */
  lemma RemoveRowCells(t: Table, r: nat, x: Addr)
    requires r < |t.rows| && ValidAddr(t, x) && x.row != r
    ensures ValidAddr(RemoveRow(t, r), AfterRemoveRow(x, r))
    ensures CellAt(RemoveRow(t, r), AfterRemoveRow(x, r)) == CellAt(t, x)
  {
    var i := AfterRemoveRow(x, r).row;
    assert RemoveRow(t, r).rows[i] == t.rows[x.row];
  }

  /** Every stored row holds at least one cell. */
  predicate RowsNonEmpty(t: Table) {
    forall i :: 0 <= i < |t.rows| ==> |t.rows[i]| > 0
  }

  /** The number of cells stored in `rows`. */
  function Count(rows: seq<Row>): nat {
    if rows == [] then 0 else |rows[0]| + Count(rows[1..])
  }

  /** The number of cells stored in the table. */
  function CellCount(t: Table): nat {
    Count(t.rows)
  }

  /** Replacing row `i` changes the count by the difference in its length. */
  lemma {:induction false} CountUpdate(rows: seq<Row>, i: nat, row: Row)
    requires i < |rows|
    ensures Count(rows[i := row]) + |rows[i]| == Count(rows) + |row|
  {
    if i > 0 {
      CountUpdate(rows[1..], i - 1, row);
      assert rows[i := row][1..] == rows[1..][i - 1 := row];
    }
  }

  /** Taking row `i` out lowers the count by its length. */
  lemma {:induction false} CountRemove(rows: seq<Row>, i: nat)
    requires i < |rows|
    ensures Count(rows[..i] + rows[i + 1..]) + |rows[i]| == Count(rows)
  {
    if i == 0 {
      assert rows[..0] + rows[1..] == rows[1..];
    } else {
      CountRemove(rows[1..], i - 1);
      assert (rows[..i] + rows[i + 1..])[1..] == rows[1..][..i - 1] + rows[1..][i..];
    }
  }

  /** Tables of the same shape hold the same number of cells. */
  lemma {:induction false} CountShape(a: seq<Row>, b: seq<Row>)
    requires |a| == |b| && forall i :: 0 <= i < |a| ==> |a[i]| == |b[i]|
    ensures Count(a) == Count(b)
  {
    if a != [] {
      CountShape(a[1..], b[1..]);
    }
  }
}
