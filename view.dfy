/**
 * The view (HTML-like) side of a table, as far as the converters look at it: a `<table>`
 * holds sections, a section holds rows, a row holds cell elements.
 */
module View {
  import opened Wrappers

  /**
   * A child element of a `<tr>`: its name (`th`, `td` or anything else, such as a text node's
   * empty name) and its `colspan` attribute as `parseInt` reads it, if present.
   */
  datatype ViewCell = ViewCell(name: string, colspan: Option<int>)

  /** A `<tr>` (or any other child of a section) and its children. */
  datatype ViewRow = ViewRow(children: seq<ViewCell>)

  /** A child of `<table>`: `thead`, `tbody`, `tfoot`, or another element such as `caption`. */
  datatype ViewSection = ViewSection(name: string, rows: seq<ViewRow>)

  datatype ViewTable = ViewTable(children: seq<ViewSection>)
}
