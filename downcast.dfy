/**
 * The classification rules of the downcast converters: which cells become `<th>`, which rows
 * go into `<thead>`, where a `<tr>` goes inside its section, and where sections are created
 * and when they are removed.
 */
module Downcast {
  import opened Wrappers
  import opened TableModel
  import opened TableWalker
  import opened View

  /** `getCellElementName`: `th` in a heading row or a heading column, `td` elsewhere. */
  function CellElementName(v: WalkerValue): (name: string)
    ensures name == "th" || name == "td"
    ensures name == "th" <==> v.row < v.table.headingRows || v.column < v.table.headingColumns
  {
    var isColumnHeading := v.table.headingRows != 0 && v.table.headingRows > v.row;
    if isColumnHeading then "th"
    else
      var isRowHeading := v.table.headingColumns != 0 && v.table.headingColumns > v.column;
      if isRowHeading then "th" else "td"
  }

  /** The section of a row: `thead` for the first `headingRows` rows, `tbody` for the others. */
  function SectionOf(row: nat, headingRows: nat): string {
    if row < headingRows then "thead" else "tbody"
  }

  /** `getSectionName`. */
  function SectionName(v: WalkerValue): (name: string)
    ensures name == "thead" <==> v.row < v.table.headingRows
    ensures name == "thead" || name == "tbody"
  {
    SectionOf(v.row, v.table.headingRows)
  }

  /** More heading rows or columns never turn a `th` into a `td`. */
  lemma HeadingsOnlyGrow(v: WalkerValue, headingRows: nat, headingColumns: nat)
    requires v.table.headingRows <= headingRows && v.table.headingColumns <= headingColumns
    ensures CellElementName(v) == "th" ==> CellElementName(v.(table := TableData(headingRows, headingColumns))) == "th"
    ensures SectionName(v) == "thead" ==> SectionName(v.(table := TableData(headingRows, headingColumns))) == "thead"
  {
  }

  /** Every cell of a `<thead>` row is a `<th>`; a `<td>` is always in the `<tbody>`. */
  lemma HeadCellsAreHeadings(v: WalkerValue)
    ensures SectionName(v) == "thead" ==> CellElementName(v) == "th"
    ensures CellElementName(v) == "td" ==> SectionName(v) == "tbody"
  {
  }

  /**
   * The position of a new `<tr>` in its section (`getOrCreateTr`), from the table's
   * `headingRows || 0`: body rows count from the first body row.
   */
  function TrOffset(rowIndex: nat, headingRows: nat): (r: int)
    ensures 0 <= r <= rowIndex
  {
    if headingRows > 0 && rowIndex >= headingRows then rowIndex - headingRows else rowIndex
  }

  /** How many of the rows before `n` share the section of row `row`. */
  function SameSectionBefore(row: nat, headingRows: nat, n: nat): nat {
    if n == 0 then 0
    else SameSectionBefore(row, headingRows, n - 1) + (if SectionOf(n - 1, headingRows) == SectionOf(row, headingRows) then 1 else 0)
  }

  lemma {:induction false} SameSectionBeforeCount(row: nat, headingRows: nat, n: nat)
    requires n <= row
    ensures SameSectionBefore(row, headingRows, n) ==
      if row < headingRows then n else if n <= headingRows then 0 else n - headingRows
  {
    if n > 0 {
      SameSectionBeforeCount(row, headingRows, n - 1);
    }
  }

  /**
   * The offset is never negative and is the number of earlier rows of the same section:
   * the `<tr>` goes right after them.
   */
  lemma TrOffsetCountsSection(rowIndex: nat, headingRows: nat)
    ensures TrOffset(rowIndex, headingRows) == SameSectionBefore(rowIndex, headingRows, rowIndex)
  {
    SameSectionBeforeCount(rowIndex, headingRows, rowIndex);
  }

  /** `getExistingTableSectionElement`: the first child of the table with that name. */
  function ExistingSection(cs: seq<ViewSection>, name: string): (r: Option<nat>)
    ensures r.Some? ==> r.value < |cs| && cs[r.value].name == name
    ensures forall j :: 0 <= j < |cs| && (r.None? || j < r.value) ==> cs[j].name != name
  {
    if cs == [] then None
    else if cs[0].name == name then Some(0)
    else match ExistingSection(cs[1..], name)
      case Some(k) => Some(k + 1)
      case None => None
  }

  /** `createTableSection`: a new, empty section; a `tbody` goes at the end, anything else at the start. */
  function CreateTableSection(cs: seq<ViewSection>, name: string): (r: seq<ViewSection>)
    ensures |r| == |cs| + 1
    ensures name == "tbody" ==> r[|cs|] == ViewSection(name, []) && r[..|cs|] == cs
    ensures name != "tbody" ==> r[0] == ViewSection(name, []) && r[1..] == cs
  {
    var section := ViewSection(name, []);
    if name == "tbody" then cs + [section] else [section] + cs
  }

  /** `removeTableSectionIfEmpty`: the first section of that name goes, if it has no rows. */
  function RemoveTableSectionIfEmpty(cs: seq<ViewSection>, name: string): (r: seq<ViewSection>)
    ensures |r| < |cs| ==> ExistingSection(cs, name).Some? && cs[ExistingSection(cs, name).value].rows == []
    ensures ExistingSection(cs, name).Some? && cs[ExistingSection(cs, name).value].rows == [] ==>
      var k := ExistingSection(cs, name).value; r == cs[..k] + cs[k + 1..]
    ensures |r| == |cs| ==> r == cs
  {
    match ExistingSection(cs, name)
    case Some(k) => if |cs[k].rows| == 0 then cs[..k] + cs[k + 1..] else cs
    case None => cs
  }

  /**
   * A created section is found again, unless an earlier one of the same name exists, and
   * removing it when still empty gives back the table's sections.
   */
  lemma CreateThenRemove(cs: seq<ViewSection>, name: string)
    requires name == "tbody" ==> ExistingSection(cs, name).None?
    ensures ExistingSection(CreateTableSection(cs, name), name) == Some(if name == "tbody" then |cs| else 0)
    ensures RemoveTableSectionIfEmpty(CreateTableSection(cs, name), name) == cs
  {
    var r := CreateTableSection(cs, name);
    if name == "tbody" {
      assert forall j :: 0 <= j < |cs| ==> r[j] == cs[j];
      ExistingAt(r, name, |cs|);
      assert r[..|cs|] == cs;
    }
  }

  lemma {:induction false} ExistingAt(cs: seq<ViewSection>, name: string, k: nat)
    requires k < |cs| && cs[k].name == name
    requires forall j :: 0 <= j < k ==> cs[j].name != name
    ensures ExistingSection(cs, name) == Some(k)
  {
    if k > 0 {
      ExistingAt(cs[1..], name, k - 1);
    }
  }
}
