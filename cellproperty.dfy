/**
 * `TableCellPropertyCommand`, the base of the table cell property commands: its value is
 * the attribute the selected cells share, and executing it sets or removes the attribute on
 * every selected cell.
 */
module TableCellProperty {
  import opened Wrappers
  import opened TableModel
  import opened Editor
  import opened Attributes

  /**
   * `getSelectedTableCells`: the cell of each selected block, in block order, blocks outside
   * any cell dropped; a cell with several selected blocks comes several times.
   */
  function SelectedTableCells(blocks: seq<Option<Addr>>): (r: seq<Addr>)
    ensures |r| <= |blocks|
    ensures forall a :: a in r <==> Some(a) in blocks
  {
    if blocks == [] then []
    else (if blocks[0].Some? then [blocks[0].value] else []) + SelectedTableCells(blocks[1..])
  }

  /** A cell is listed once for every selected block inside it. */
  lemma {:induction false} SelectedOncePerBlock(blocks: seq<Option<Addr>>)
    ensures forall a :: multiset(SelectedTableCells(blocks))[a] == multiset(blocks)[Some(a)]
  {
    if blocks != [] {
      SelectedOncePerBlock(blocks[1..]);
      assert blocks == [blocks[0]] + blocks[1..];
    }
  }

  /** The selected cells are cells of the table. */
  lemma SelectedCellsStored(t: Table, s: Selection)
    requires Within(t, s)
    ensures forall a :: a in SelectedTableCells(s.blocks) ==> ValidAddr(t, a)
  {
    forall a | a in SelectedTableCells(s.blocks)
      ensures ValidAddr(t, a)
    {
      var i :| 0 <= i < |s.blocks| && s.blocks[i] == Some(a);
    }
  }

  predicate AllStored(t: Table, cells: seq<Addr>) {
    forall k :: 0 <= k < |cells| ==> ValidAddr(t, cells[k])
  }

  /** Cells stored in a table are stored in any table of its shape. */
  lemma StoredInSameShape(t: Table, u: Table, cells: seq<Addr>, i: nat)
    requires AllStored(t, cells) && SameShape(u, t) && i <= |cells|
    ensures AllStored(u, cells[i..])
  {
    forall k | 0 <= k < |cells[i..]|
      ensures ValidAddr(u, cells[i..][k])
    {
      assert cells[i..][k] == cells[i + k];
    }
  }

  /** `_getAttribute( tableCell )`. */
  function CellAttribute(t: Table, a: Addr, name: string): Option<string>
    requires ValidAddr(t, a)
  {
    Attribute(CellAt(t, a).attrs, name)
  }

  /**
   * `_getSingleValue`: the first cell's value if every cell has exactly that value; otherwise,
   * and for no cells at all, `undefined`.
   */
  function SingleValue(t: Table, cells: seq<Addr>, name: string): (r: Option<string>)
    requires AllStored(t, cells)
    ensures r.Some? ==> forall k :: 0 <= k < |cells| ==> CellAttribute(t, cells[k], name) == r
    ensures r.Some? <==> (|cells| > 0 && CellAttribute(t, cells[0], name).Some? &&
      forall k :: 0 <= k < |cells| ==> CellAttribute(t, cells[k], name) == CellAttribute(t, cells[0], name))
  {
    var firstCellValue := if cells == [] then None else CellAttribute(t, cells[0], name);
    var everyCellHasAttribute := forall k :: 0 <= k < |cells| ==> CellAttribute(t, cells[k], name) == firstCellValue;
    if everyCellHasAttribute then firstCellValue else None
  }

  /** `_getValueToSet`: the value is written as given. */
  function ValueToSet(value: Option<string>): (r: Option<string>)
    ensures r == value
  {
    value
  }

  /** The table after one turn of the `forEach`: the attribute set or removed on one cell. */
  function WriteCell(t: Table, a: Addr, name: string, value: Option<string>): (r: Table)
    requires ValidAddr(t, a)
    ensures SameShape(r, t) && r.headingRows == t.headingRows && r.headingColumns == t.headingColumns && r.attrs == t.attrs
  {
    SetCell(t, a, CellAt(t, a).(attrs := SetOrRemove(CellAt(t, a).attrs, name, value)))
  }

  /** The table after the whole `forEach` over `cells`. */
  function WriteCells(t: Table, cells: seq<Addr>, name: string, value: Option<string>): (r: Table)
    requires AllStored(t, cells)
    ensures SameShape(r, t) && r.headingRows == t.headingRows && r.headingColumns == t.headingColumns && r.attrs == t.attrs
    decreases |cells|
  {
    if cells == [] then t else WriteCells(WriteCell(t, cells[0], name, value), cells[1..], name, value)
  }

  /**
   * After the loop, each listed cell has the attribute set (truthy value) or removed, however
   * often it is listed; its other attributes and its content stay, and unlisted cells do not change.
   */
  lemma {:induction false} WriteCellsAt(t: Table, cells: seq<Addr>, name: string, value: Option<string>, x: Addr)
    requires AllStored(t, cells) && ValidAddr(t, x)
    ensures CellAt(WriteCells(t, cells, name, value), x) ==
      if x in cells then CellAt(t, x).(attrs := SetOrRemove(CellAt(t, x).attrs, name, value)) else CellAt(t, x)
    decreases |cells|
  {
    if cells != [] {
      var next := WriteCell(t, cells[0], name, value);
      assert forall k :: 0 <= k < |cells[1..]| ==> cells[1..][k] == cells[k + 1];
      WriteCellsAt(next, cells[1..], name, value, x);
      assert x in cells <==> x == cells[0] || x in cells[1..];
      if x == cells[0] && x in cells[1..] {
        SetOrRemoveTwice(CellAt(t, x).attrs, name, value);
      }
    }
  }

  /** Executing twice with the same value leaves what executing once leaves, duplicates or not. */
  lemma WriteCellsIdempotent(t: Table, cells: seq<Addr>, name: string, value: Option<string>)
    requires AllStored(t, cells)
    ensures WriteCells(WriteCells(t, cells, name, value), cells, name, value) == WriteCells(t, cells, name, value)
  {
    var once := WriteCells(t, cells, name, value);
    var twice := WriteCells(once, cells, name, value);
    forall x | ValidAddr(twice, x)
      ensures CellAt(twice, x) == CellAt(once, x)
    {
      WriteCellsAt(t, cells, name, value, x);
      WriteCellsAt(once, cells, name, value, x);
      if x in cells {
        SetOrRemoveTwice(CellAt(t, x).attrs, name, value);
      }
    }
    SameCells(twice, once);
  }

  /** After executing, the value `refresh()` finds is the value written if truthy, else `undefined`. */
  lemma RefreshAfterExecute(t: Table, cells: seq<Addr>, name: string, value: Option<string>)
    requires AllStored(t, cells) && cells != []
    ensures AllStored(WriteCells(t, cells, name, value), cells)
    ensures SingleValue(WriteCells(t, cells, name, value), cells, name) == if Truthy(value) then value else None
  {
    var r := WriteCells(t, cells, name, value);
    forall k | 0 <= k < |cells|
      ensures CellAttribute(r, cells[k], name) == if Truthy(value) then value else None
    {
      WriteCellsAt(t, cells, name, value, cells[k]);
    }
  }

  /** The command, the attribute it works on, and the `isEnabled`/`value` fields `refresh()` sets. */
  class TableCellPropertyCommand {
    const doc: Document
    const attributeName: string
    var isEnabled: bool
    var value: Option<string>

    constructor (doc: Document, attributeName: string)
      ensures this.doc == doc && this.attributeName == attributeName && !isEnabled && value.None?
    {
      this.doc := doc;
      this.attributeName := attributeName;
      isEnabled := false;
      value := None;
    }

    /** `refresh()`: enabled exactly when some selected block is in a cell; the value is their common one. */
    method Refresh()
      requires doc.Valid()
      modifies this
      ensures AllStored(doc.table, SelectedTableCells(doc.selection.blocks))
      ensures isEnabled <==> SelectedTableCells(doc.selection.blocks) != []
      ensures value == SingleValue(doc.table, SelectedTableCells(doc.selection.blocks), attributeName)
    {
      var selectedTableCells := SelectedTableCells(doc.selection.blocks);
      SelectedCellsStored(doc.table, doc.selection);
      isEnabled := |selectedTableCells| != 0;
      value := SingleValue(doc.table, selectedTableCells, attributeName);
    }

    /** `execute( { value } )`: the attribute set, or removed, on every selected cell in turn. */
    method Execute(value: Option<string>)
      requires doc.Valid()
      modifies doc
      ensures AllStored(old(doc.table), SelectedTableCells(old(doc.selection).blocks))
      ensures doc.table == WriteCells(old(doc.table), SelectedTableCells(old(doc.selection).blocks), attributeName, value)
      ensures doc.selection == old(doc.selection)
    {
      var tableCells := SelectedTableCells(doc.selection.blocks);
      SelectedCellsStored(doc.table, doc.selection);
      var valueToSet := ValueToSet(value);
      ghost var t := doc.table;
      for i := 0 to |tableCells|
        invariant SameShape(doc.table, t)
        invariant doc.selection == old(doc.selection)
        invariant AllStored(doc.table, tableCells[i..])
        invariant WriteCells(doc.table, tableCells[i..], attributeName, valueToSet) == WriteCells(t, tableCells, attributeName, value)
      {
        ghost var before := doc.table;
        assert tableCells[i..][0] == tableCells[i] && tableCells[i..][1..] == tableCells[i + 1..];
        var tableCell := tableCells[i];
        if Truthy(valueToSet) {
          doc.table := SetCell(doc.table, tableCell,
            CellAt(doc.table, tableCell).(attrs := CellAt(doc.table, tableCell).attrs[attributeName := valueToSet.value]));
        } else {
          doc.table := SetCell(doc.table, tableCell,
            CellAt(doc.table, tableCell).(attrs := CellAt(doc.table, tableCell).attrs - {attributeName}));
        }
        assert doc.table == WriteCell(before, tableCell, attributeName, valueToSet);
        StoredInSameShape(t, doc.table, tableCells, i + 1);
      }
    }
  }
}
