/**
 * `ResizeColumnCommand`: gives the cell at the selected cell's index in every row the
 * selected cell's width plus the resize amount.
 */
module ResizeColumn {
  import opened Wrappers
  import opened TableModel
  import opened Editor

  /** `parseInt( tableCell.getAttribute( 'colwidth' ) || 32 )`: an absent or zero width reads as 32. */
  function ColWidth(c: Cell): (r: int)
    ensures r != 0
    ensures c.colwidth.Some? && c.colwidth.value != 0 ==> r == c.colwidth.value
    ensures c.colwidth.None? || c.colwidth.value == 0 ==> r == 32
  {
    if c.colwidth.Some? && c.colwidth.value != 0 then c.colwidth.value else 32
  }

  /**
   * The table with `tableUtils.resizeColumn( cell, width )` applied to the cell at storage
   * index `columnIndex` of each row that has one.
   */
  function Resized(t: Table, columnIndex: nat, width: int, resizeColumn: (Cell, int) -> Cell): (r: Table)
    ensures SameShape(r, t)
    ensures r.headingRows == t.headingRows && r.headingColumns == t.headingColumns && r.attrs == t.attrs
  {
    t.(rows := seq(|t.rows|, i requires 0 <= i < |t.rows| =>
      if columnIndex < |t.rows[i]| then t.rows[i][columnIndex := resizeColumn(t.rows[i][columnIndex], width)]
      else t.rows[i]))
  }

  /**
   * Every row's cell at the storage index gets the one width; every other cell is untouched.
   * The index is a storage index: with a colspan in a row it is not the same visual column.
   */
  lemma ResizedCells(t: Table, columnIndex: nat, width: int, resizeColumn: (Cell, int) -> Cell, x: Addr)
    requires ValidAddr(t, x)
    ensures ValidAddr(Resized(t, columnIndex, width, resizeColumn), x)
    ensures CellAt(Resized(t, columnIndex, width, resizeColumn), x) ==
      if x.index == columnIndex then resizeColumn(CellAt(t, x), width) else CellAt(t, x)
  {
  }

  /** The command and the `isEnabled` flag `refresh()` sets. */
  class ResizeColumnCommand {
    const doc: Document
    var isEnabled: bool

    constructor (doc: Document)
      ensures this.doc == doc && !isEnabled
    {
      this.doc := doc;
      isEnabled := false;
    }

    /** `refresh()`: enabled exactly when the selection starts in a table cell. */
    method Refresh()
      modifies this
      ensures isEnabled <==> doc.selection.first.InCell?
    {
      isEnabled := doc.selection.first.InCell?;
    }

    /**
     * `execute( resizeAmount )`, run while enabled: the width is read once, in the turn for
     * row 0, from the selected cell, and each row's cell at the selected cell's index receives it.
     */
    method Execute(resizeAmount: int, resizeColumn: (Cell, int) -> Cell)
      requires doc.Valid() && doc.selection.first.InCell?
      modifies doc
      ensures var a := old(doc.selection.first).cell;
        doc.table == Resized(old(doc.table), a.index, ColWidth(CellAt(old(doc.table), a)) + resizeAmount, resizeColumn)
      ensures doc.selection == old(doc.selection)
    {
      var tableCell := doc.selection.first.cell;
      var columnIndex := tableCell.index;
      ghost var t := doc.table;
      ghost var width := ColWidth(CellAt(t, tableCell)) + resizeAmount;
      var newColWidth := 0;
      for i := 0 to |doc.table.rows|
        invariant SameShape(doc.table, t) && doc.selection == old(doc.selection)
        invariant doc.table.headingRows == t.headingRows && doc.table.headingColumns == t.headingColumns
        invariant doc.table.attrs == t.attrs
        invariant i > 0 ==> newColWidth == width
        invariant forall k :: 0 <= k < i ==> doc.table.rows[k] == Resized(t, columnIndex, width, resizeColumn).rows[k]
        invariant forall k :: i <= k < |t.rows| ==> doc.table.rows[k] == t.rows[k]
      {
        if i == 0 {
          var colwidth := ColWidth(CellAt(doc.table, tableCell));
          newColWidth := colwidth + resizeAmount;
        }
        if columnIndex < |doc.table.rows[i]| {
          var cell := CellAt(doc.table, Addr(i, columnIndex));
          doc.table := SetCell(doc.table, Addr(i, columnIndex), resizeColumn(cell, newColWidth));
        }
      }
      assert doc.table.rows == Resized(t, columnIndex, width, resizeColumn).rows;
    }
  }
}
