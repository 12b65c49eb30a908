/**
 * `TablePropertyCommand`, the base of the table property commands: its value is the
 * attribute of the table the selection is in, and executing it sets or removes that attribute.
 */
module TableProperty {
  import opened Wrappers
  import opened TableModel
  import opened Editor
  import opened Attributes

  /** `_getValue( findAncestor( 'table', … ) )`: the table's attribute; `undefined` outside a table. */
  function TableValue(t: Table, p: Position, name: string): (r: Option<string>)
    ensures !InsideTable(p) ==> r.None?
    ensures InsideTable(p) ==> (r.Some? <==> name in t.attrs)
    ensures InsideTable(p) && r.Some? ==> r.value == t.attrs[name]
  {
    if !InsideTable(p) then None else Attribute(t.attrs, name)
  }

  /** After `execute( { value } )`, `refresh()` reads back the value if it is truthy, and `undefined` otherwise. */
  lemma RefreshAfterExecute(t: Table, p: Position, name: string, value: Option<string>)
    requires InsideTable(p)
    ensures TableValue(t.(attrs := SetOrRemove(t.attrs, name, value)), p, name) == if Truthy(value) then value else None
  {
  }

  /** The command, the attribute it works on, and the `isEnabled`/`value` fields `refresh()` sets. */
  class TablePropertyCommand {
    const doc: Document
    const attributeName: string
    var isEnabled: bool
    var value: Option<string>

    constructor (doc: Document, attributeName: string)
      ensures this.doc == doc && this.attributeName == attributeName && !isEnabled && value.None?
    {
      this.doc := doc;
      this.attributeName := attributeName;
      isEnabled := false;
      value := None;
    }

    /** `refresh()`: enabled exactly inside a table; the value is the table's attribute. */
    method Refresh()
      modifies this
      ensures isEnabled <==> InsideTable(doc.selection.first)
      ensures value == TableValue(doc.table, doc.selection.first, attributeName)
    {
      isEnabled := InsideTable(doc.selection.first);
      value := TableValue(doc.table, doc.selection.first, attributeName);
    }

    /** `execute( { value } )`, run while enabled: a truthy value is set on the table, anything else removes it. */
    method Execute(value: Option<string>)
      requires InsideTable(doc.selection.first)
      modifies doc
      ensures doc.table == old(doc.table).(attrs := SetOrRemove(old(doc.table).attrs, attributeName, value))
      ensures doc.selection == old(doc.selection)
    {
      if value.Some? && value.value != "" {
        doc.table := doc.table.(attrs := doc.table.attrs[attributeName := value.value]);
      } else {
        doc.table := doc.table.(attrs := doc.table.attrs - {attributeName});
      }
    }
  }
}
