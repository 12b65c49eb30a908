/**
 * `InsertColumnCommand`: inserts one column to the left or to the right of the caret's column,
 * mirrored in right-to-left content.
 */
module InsertColumn {
  import opened Wrappers
  import opened TableModel
  import opened CellLocation
  import opened Editor

  /** `options.order || 'right'`: an absent or empty order is `'right'`. */
  function OrderOption(order: Option<string>): (r: string)
    ensures r != ""
    ensures order.Some? && order.value != "" ==> r == order.value
    ensures order.None? || order.value == "" ==> r == "right"
  {
    if order.Some? && order.value != "" then order.value else "right"
  }

  /**
   * The column the new one goes in: the caret's column shifts by one exactly when the order
   * is `'right'` in left-to-right content or anything else in right-to-left content.
   */
  function InsertionIndex(column: nat, order: string, lang: ContentDirection): (at: nat)
    ensures at == column || at == column + 1
    ensures at == column + 1 <==> (order == "right" <==> lang == Ltr)
  {
    var isOrderRight := order == "right";
    var isContentLtr := lang == Ltr;
    if (isOrderRight && isContentLtr) || (!isOrderRight && !isContentLtr) then column + 1 else column
  }

  /**
   * The four cases of the decision table: right/LTR and left/RTL insert after the column,
   * left/LTR and right/RTL before it.
   */
  lemma InsertionTable(column: nat)
    ensures InsertionIndex(column, "right", Ltr) == column + 1
    ensures InsertionIndex(column, "left", Ltr) == column
    ensures InsertionIndex(column, "right", Rtl) == column
    ensures InsertionIndex(column, "left", Rtl) == column + 1
  {
  }

  /**
   * Right-to-left content mirrors the order, the two orders in one direction give the two
   * sides of the column, and every order other than `'right'` acts as `'left'`.
   */
  lemma InsertionMirrored(column: nat, order: string, lang: ContentDirection)
    ensures InsertionIndex(column, order, Ltr) != InsertionIndex(column, order, Rtl)
    ensures InsertionIndex(column, "right", lang) + InsertionIndex(column, "left", lang) == 2 * column + 1
    ensures order != "right" ==> InsertionIndex(column, order, lang) == InsertionIndex(column, "left", lang)
  {
  }

  /** The command, its order, and the `isEnabled` flag `refresh()` sets. */
  class InsertColumnCommand {
    const doc: Document
    const order: string
    var isEnabled: bool

    constructor (doc: Document, order: Option<string>)
      ensures this.doc == doc && this.order == OrderOption(order) && !isEnabled
    {
      this.doc := doc;
      this.order := OrderOption(order);
      isEnabled := false;
    }

    /** `refresh()`: enabled exactly when the selection starts inside a table. */
    method Refresh()
      modifies this
      ensures isEnabled <==> InsideTable(doc.selection.first)
    {
      isEnabled := InsideTable(doc.selection.first);
    }

    /**
     * `execute()`, run while enabled: one column inserted at `InsertionIndex` of the caret
     * cell's column; with the caret in the table but in no cell, `tableCell.parent` throws
     * and nothing changes.
     */
    method Execute(insertColumns: (Table, nat, nat) -> Table) returns (threw: bool)
      requires doc.Valid() && InsideTable(doc.selection.first)
      modifies doc
      ensures threw <==> !old(doc.selection.first).InCell?
      ensures threw ==> doc.table == old(doc.table)
      ensures !threw ==> doc.table == insertColumns(old(doc.table), 1,
        InsertionIndex(ColumnOf(old(doc.table), old(doc.selection.first).cell), order, doc.direction))
      ensures doc.selection == old(doc.selection)
    {
      if !doc.selection.first.InCell? {
        return true;
      }
      var tableCell := doc.selection.first.cell;
      var column := ColumnOf(doc.table, tableCell);
      var isOrderRight := order == "right";
      var isContentLtr := doc.direction == Ltr;
      if (isOrderRight && isContentLtr) || (!isOrderRight && !isContentLtr) {
        column := column + 1;
      }
      doc.table := insertColumns(doc.table, 1, column);
      return false;
    }
  }
}
