/**
 * The key and mouse handlers of the `TableEditing` plugin: Tab and Shift+Tab move the
 * selection from cell to cell in storage order (adding a row after the last cell), Tab on a
 * selected table enters its first cell, and mousedown/mousemove/mouseup on a column resizer
 * drive a small drag state machine that issues `resizeColumn` amounts.
 */
module TableEditing {
  import opened Wrappers
  import opened TableModel
  import opened Editor

  // ----- Tab ---------------------------------------------------------------------------------

  /**
   * What a Tab handler does inside a cell: keep the selection, focus a cell, or fail, when the
   * row it moves to has no cell and `createRangeIn( undefined )` throws.
   */
  datatype TabMove = Stay | Focus(cell: Addr) | Fails

  /** The table after the handler (a row may have been inserted) and the move. */
  datatype TabOutcome = TabOutcome(table: Table, move: TabMove)

  /**
   * The handler of `_getTabHandler( isForward )` for the caret in cell `a`;
   * `insertTableRowBelow` is the effect of `editor.execute( 'insertTableRowBelow' )`.
   */
  function TabTarget(t: Table, a: Addr, isForward: bool, insertTableRowBelow: Table -> Table): (o: TabOutcome)
    requires ValidAddr(t, a)
    ensures o.move.Focus? ==> ValidAddr(o.table, o.move.cell)
    ensures o.table != t ==> isForward && a.row == |t.rows| - 1 && a.index == |t.rows[a.row]| - 1
  {
    var isFirstCellInRow := a.index == 0;
    if !isForward && isFirstCellInRow && a.row == 0 then TabOutcome(t, Stay)
    else
      var isLastCellInRow := a.index == |t.rows[a.row]| - 1;
      var isLastRow := a.row == |t.rows| - 1;
      var table := if isForward && isLastRow && isLastCellInRow then insertTableRowBelow(t) else t;
      if isForward && isLastRow && isLastCellInRow && a.row == |table.rows| - 1 then TabOutcome(table, Stay)
      else if isForward && isLastCellInRow then
        if a.row + 1 < |table.rows| && |table.rows[a.row + 1]| > 0 then TabOutcome(table, Focus(Addr(a.row + 1, 0)))
        else TabOutcome(table, Fails)
      else if !isForward && isFirstCellInRow then
        if |t.rows[a.row - 1]| > 0 then TabOutcome(t, Focus(Addr(a.row - 1, |t.rows[a.row - 1]| - 1)))
        else TabOutcome(t, Fails)
      else TabOutcome(t, Focus(Addr(a.row, if isForward then a.index + 1 else a.index - 1)))
  }

  /** Inside a row, Tab moves to the next stored cell and Shift+Tab to the previous one. */
  lemma TabWithinRow(t: Table, a: Addr, insertTableRowBelow: Table -> Table)
    requires ValidAddr(t, a)
    ensures a.index + 1 < |t.rows[a.row]| ==>
      TabTarget(t, a, true, insertTableRowBelow) == TabOutcome(t, Focus(Addr(a.row, a.index + 1)))
    ensures a.index > 0 ==>
      TabTarget(t, a, false, insertTableRowBelow) == TabOutcome(t, Focus(Addr(a.row, a.index - 1)))
  {
  }

  /**
   * Across rows: Tab from the last cell of a row that is not the last goes to the first cell
   * of the next row, Shift+Tab from the first cell of a row other than the first goes to the
   * last cell of the previous row, and Shift+Tab in the very first cell stays.
   */
  lemma TabAcrossRows(t: Table, a: Addr, insertTableRowBelow: Table -> Table)
    requires ValidAddr(t, a)
    ensures a.index == |t.rows[a.row]| - 1 && a.row + 1 < |t.rows| ==>
      TabTarget(t, a, true, insertTableRowBelow) ==
      TabOutcome(t, if |t.rows[a.row + 1]| > 0 then Focus(Addr(a.row + 1, 0)) else Fails)
    ensures a.index == 0 && a.row > 0 ==>
      TabTarget(t, a, false, insertTableRowBelow) ==
      TabOutcome(t, if |t.rows[a.row - 1]| > 0 then Focus(Addr(a.row - 1, |t.rows[a.row - 1]| - 1)) else Fails)
    ensures a == Addr(0, 0) ==> TabTarget(t, a, false, insertTableRowBelow) == TabOutcome(t, Stay)
  {
  }

  /**
   * Tab in the last cell of the table first inserts a row below; if that did not add a row the
   * selection stays, otherwise it goes to the first cell of the row after the current one.
   */
  lemma TabAtTableEnd(t: Table, a: Addr, insertTableRowBelow: Table -> Table)
    requires ValidAddr(t, a) && a.row == |t.rows| - 1 && a.index == |t.rows[a.row]| - 1
    ensures var t2 := insertTableRowBelow(t);
      && TabTarget(t, a, true, insertTableRowBelow).table == t2
      && (|t2.rows| == |t.rows| ==> TabTarget(t, a, true, insertTableRowBelow).move == Stay)
      && (|t2.rows| > |t.rows| && |t2.rows[a.row + 1]| > 0 ==>
           TabTarget(t, a, true, insertTableRowBelow).move == Focus(Addr(a.row + 1, 0)))
  {
  }

  /**
   * Tab and Shift+Tab undo each other: where Tab moves without inserting a row, Shift+Tab
   * from there comes back, and the other way round.
   */
  lemma TabRoundTrip(t: Table, a: Addr, insertTableRowBelow: Table -> Table)
    requires ValidAddr(t, a)
    ensures var o := TabTarget(t, a, true, insertTableRowBelow);
      o.table == t && o.move.Focus? ==>
        TabTarget(t, o.move.cell, false, insertTableRowBelow) == TabOutcome(t, Focus(a))
    ensures var o := TabTarget(t, a, false, insertTableRowBelow);
      o.move.Focus? ==>
        TabTarget(t, o.move.cell, true, insertTableRowBelow) == TabOutcome(t, Focus(a))
  {
    var o := TabTarget(t, a, true, insertTableRowBelow);
    if o.table == t && o.move.Focus? && a.index == |t.rows[a.row]| - 1 {
      assert a.row + 1 < |t.rows|;
    }
  }

  /** `Sum`: the total of the resize amounts issued. */
  function Sum(s: seq<int>): int {
    if s == [] then 0 else Sum(s[..|s| - 1]) + s[|s| - 1]
  }

  /**
   * The plugin's handlers, over the document they act on, and the column-resize drag state
   * `_isResizing`/`_resizeStart`; the ghost fields record where the drag began and the amounts
   * it has issued so far.
   */
  class TableEditingHandlers {
    const doc: Document
    var isResizing: bool
    var resizeStart: int
    ghost var dragStart: int
    ghost var issued: seq<int>

    /** While resizing, the baseline is the drag's start moved by every amount issued. */
    ghost predicate Valid()
      reads this
    {
      isResizing ==> resizeStart == dragStart + Sum(issued)
    }

    constructor (doc: Document)
      ensures this.doc == doc && !isResizing && resizeStart == 0 && issued == [] && Valid()
    {
      this.doc := doc;
      isResizing := false;
      resizeStart := 0;
      dragStart := 0;
      issued := [];
    }

    /**
     * `_handleTabOnSelectedTable`: with the table widget selected, cancel the key and put
     * the selection in the first cell of the first row (which throws if that row has no cell).
     */
    method HandleTabOnSelectedTable() returns (cancelled: bool, threw: bool)
      modifies doc
      ensures cancelled <==> old(doc.selection.tableSelected)
      ensures doc.table == old(doc.table)
      ensures threw <==> cancelled && !ValidAddr(doc.table, Addr(0, 0))
      ensures cancelled && !threw ==> doc.selection == SelectionIn(doc.table, Addr(0, 0))
      ensures !cancelled || threw ==> doc.selection == old(doc.selection)
    {
      if !doc.selection.tableSelected {
        return false, false;
      }
      if !ValidAddr(doc.table, Addr(0, 0)) {
        return true, true;
      }
      doc.selection := SelectionIn(doc.table, Addr(0, 0));
      return true, false;
    }

    /**
     * The handler `_getTabHandler( isForward )` returns: outside a cell it does nothing;
     * inside, it cancels the key and does what `TabTarget` says.
     */
    method TabHandler(isForward: bool, insertTableRowBelow: Table -> Table) returns (cancelled: bool, threw: bool)
      requires doc.Valid()
      modifies doc
      ensures cancelled <==> old(doc.selection.first).InCell?
      ensures !cancelled ==> doc.table == old(doc.table) && doc.selection == old(doc.selection) && !threw
      ensures cancelled ==>
        var o := TabTarget(old(doc.table), old(doc.selection.first).cell, isForward, insertTableRowBelow);
        && doc.table == o.table && (threw <==> o.move.Fails?)
        && doc.selection == (if o.move.Focus? then SelectionIn(o.table, o.move.cell) else old(doc.selection))
    {
      if !doc.selection.first.InCell? {
        return false, false;
      }
      var tableCell := doc.selection.first.cell;
      var currentRowIndex := tableCell.row;
      var currentCellIndex := tableCell.index;
      var isFirstCellInRow := currentCellIndex == 0;
      if !isForward && isFirstCellInRow && currentRowIndex == 0 {
        return true, false;
      }
      var isLastCellInRow := currentCellIndex == |doc.table.rows[currentRowIndex]| - 1;
      var isLastRow := currentRowIndex == |doc.table.rows| - 1;
      ghost var t := doc.table;
      if isForward && isLastRow && isLastCellInRow {
        doc.table := insertTableRowBelow(doc.table);
        if currentRowIndex == |doc.table.rows| - 1 {
          return true, false;
        }
      }
      var cellToFocus: Addr;
      if isForward && isLastCellInRow {
        if !(currentRowIndex + 1 < |doc.table.rows| && |doc.table.rows[currentRowIndex + 1]| > 0) {
          return true, true;
        }
        cellToFocus := Addr(currentRowIndex + 1, 0);
      } else if !isForward && isFirstCellInRow {
        var previousRow := doc.table.rows[currentRowIndex - 1];
        if |previousRow| == 0 {
          return true, true;
        }
        cellToFocus := Addr(currentRowIndex - 1, |previousRow| - 1);
      } else {
        cellToFocus := Addr(currentRowIndex, if isForward then currentCellIndex + 1 else currentCellIndex - 1);
      }
      doc.selection := SelectionIn(doc.table, cellToFocus);
      return true, false;
    }

    /** `_onMousedown`: on a column resizer, start a drag with the pointer's x as baseline. */
    method OnMousedown(onResizer: bool, clientX: int)
      requires Valid()
      modifies this
      ensures onResizer ==> isResizing && resizeStart == clientX && dragStart == clientX && issued == []
      ensures !onResizer ==> isResizing == old(isResizing) && resizeStart == old(resizeStart)
      ensures !onResizer ==> dragStart == old(dragStart) && issued == old(issued)
      ensures Valid()
    {
      if !onResizer {
        return;
      }
      isResizing := true;
      resizeStart := clientX;
      dragStart := clientX;
      issued := [];
    }

    /**
     * `_onMousemove`: while dragging, a pointer x different from the baseline issues
     * `resizeColumn` with the difference and becomes the new baseline. The amounts issued over
     * one drag add up to the pointer's travel since mousedown.
     */
    method OnMousemove(clientX: int) returns (resizeAmount: Option<int>)
      requires Valid()
      modifies this
      ensures !old(isResizing) ==> resizeAmount.None? && resizeStart == old(resizeStart) && issued == old(issued)
      ensures isResizing == old(isResizing) && dragStart == old(dragStart)
      ensures old(isResizing) && clientX == old(resizeStart) ==> resizeAmount.None? && issued == old(issued)
      ensures old(isResizing) && clientX != old(resizeStart) ==>
        resizeAmount == Some(clientX - old(resizeStart)) && issued == old(issued) + [clientX - old(resizeStart)]
      ensures isResizing ==> resizeStart == clientX && Sum(issued) == clientX - dragStart
      ensures Valid()
    {
      if !isResizing {
        return None;
      }
      var resizeEnd := clientX;
      var diff := resizeEnd - resizeStart;
      if diff == 0 {
        return None;
      }
      assert (issued + [diff])[..|issued|] == issued;
      resizeStart := resizeEnd;
      issued := issued + [diff];
      return Some(diff);
    }

    /** `_onMouseup`: the drag ends; with no drag going on nothing changes. */
    method OnMouseup()
      requires Valid()
      modifies this
      ensures !isResizing && resizeStart == old(resizeStart) && issued == old(issued) && Valid()
    {
      if !isResizing {
        return;
      }
      isResizing := false;
    }
  }
}
