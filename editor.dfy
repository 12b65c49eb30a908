/**
 * The part of the editor the table commands read and write: one table in the model document,
 * the document selection seen through `findAncestor`, and the content language direction.
 */
module Editor {
  import opened Wrappers
  import opened TableModel

  /**
   * Where `selection.getFirstPosition()` is, as `findAncestor` sees it: outside any table,
   * inside the table but in no cell, or inside the cell stored at `cell`.
   */
  datatype Position = Outside | InTable | InCell(cell: Addr)

  /** `editor.locale.contentLanguageDirection`. */
  datatype ContentDirection = Ltr | Rtl

  /**
   * The document selection: its first position; whether it is exactly the table widget
   * (not collapsed, one flat range, the selected element is the table); and, for each block
   * `getSelectedBlocks()` yields, the table cell it is in (`None` for a block outside every cell).
   */
  datatype Selection = Selection(first: Position, tableSelected: bool, blocks: seq<Option<Addr>>)

  /** `findAncestor( 'table', selection.getFirstPosition() )` finds the table. */
  predicate InsideTable(p: Position) {
    p.InTable? || p.InCell?
  }

  /** Every cell the selection names is stored in `t`. */
  predicate Within(t: Table, s: Selection) {
    && (s.first.InCell? ==> ValidAddr(t, s.first.cell))
    && forall i :: 0 <= i < |s.blocks| && s.blocks[i].Some? ==> ValidAddr(t, s.blocks[i].value)
  }

  /** `writer.createRangeIn( cell )` as the new selection: one block per block of the cell. */
  function SelectionIn(t: Table, a: Addr): (s: Selection)
    requires ValidAddr(t, a)
    ensures s.first == InCell(a) && !s.tableSelected
    ensures |s.blocks| == |CellAt(t, a).content|
    ensures forall i :: 0 <= i < |s.blocks| ==> s.blocks[i] == Some(a)
    ensures Within(t, s)
  {
    Selection(InCell(a), false, seq(|CellAt(t, a).content|, i => Some(a)))
  }

  /** The model document: the table and the selection, both changed in place by the commands. */
  class Document {
    var table: Table
    var selection: Selection
    const direction: ContentDirection

    constructor (table: Table, selection: Selection, direction: ContentDirection)
      ensures this.table == table && this.selection == selection && this.direction == direction
    {
      this.table := table;
      this.selection := selection;
      this.direction := direction;
    }

    /** The selection only names cells of the table. */
    ghost predicate Valid()
      reads this
    {
      Within(table, selection)
    }
  }
}
