# ckeditor5-table: the table walker and the table commands, modelled in Dafny

This project models the core of the CKEditor 5 table feature and proves properties of the model:

- **The table walker** (`tablewalker.js`). It goes over a table's stored cells row by row. Each cell
  gets a visual column, skipping the columns that cells from rows above cover with their
  `rowspan`. `CellSpans` holds the span map.
- **The merge-cell command** (`mergecellcommand.js`). It finds the cell to merge with, in a
  direction that is mirrored for right-to-left content. It merges the contents, adds up the spans
  and deletes a row the merge leaves empty.
- **The insert-column command.** Its default order, when it is enabled, and the column it
  inserts at.
- **The view converters** (`upcasttable.js`, `downcast.js`):
  - how a `<table>` is scanned into heading rows, heading columns and model row order;
  - the fallback for an empty table;
  - the `th`/`td` and `thead`/`tbody` choice;
  - where a `<tr>` goes inside its section;
  - how view sections are created and removed.
- **The editing handlers** (`tableediting.js`): Tab and Shift+Tab from a cell, Tab on a selected
  table, and the column-resize mouse handlers.
- **The commands** `ResizeColumnCommand`, `TableCellPropertyCommand` and `TablePropertyCommand`.

A table is stored as the source stores it. Each row holds only the cells that start in it.
`rowspan` and `colspan` are optional attributes, and a missing one means 1. The heading counts
are optional attributes too, and a missing one means 0. Cells are named by address (row index,
index in the row). The visual column is what the walker computes: `CellLocation.Location` is the
full walk's value for a cell.

State the source changes in place is modelled in place:

| Class | What it holds |
|---|---|
| `TableWalker`, `CellSpans` | the walker's cursor fields and its span map |
| `Editor.Document` | the model table and the document selection |
| each command class | its `isEnabled` and `value` |
| `TableEditing.TableEditingHandlers` | the resize-drag fields |

Each method is proved against a function that specifies it. Everything the source computes
without changing state is a function, with lemmas about it.

Modules follow the source:

| Files | Source |
|---|---|
| `tablewalker.dfy`, `walkerproperties.dfy`, `walkerexamples.dfy`, `celllocation.dfy` | `tablewalker.js` |
| `mergecell.dfy` (finding the cell), `mergeedit.dfy` (the edit and the command) | `mergecellcommand.js` |
| `insertcolumn.dfy` | `insertcolumncommand.js` |
| `upcast.dfy` | `upcasttable.js` |
| `downcast.dfy` | `downcast.js` |
| `tableediting.dfy` | `tableediting.js` |
| `resizecolumn.dfy` | `resizecolumncommand.js` |
| `cellproperty.dfy` | `tablecellpropertycommand.js` |
| `tableproperty.dfy` | `tablepropertycommand.js` |

There are also `tablemodel.dfy` (the model table), `editor.dfy` (document, selection, content
direction), `view.dfy` (view elements), `attributes.dfy` (set or remove an attribute) and
`wrappers.dfy`.

The walker has two `Variant`s:

- `AsWritten` is `next()` exactly as written.
- `Corrected` drops the second `_updateSpans()` call at the end of a row (see Findings).

Every consumer in the model walks with `Corrected`: cell locations, the vertical merge and
`removeEmptyRow`. "## Left out" says where that changes a result.

Commands run only while enabled, because the editor's `Command#execute` does nothing for a
disabled command. So each `Execute` requires what `refresh()` found.

Collaborators whose code is not part of this model become function parameters:

- `insertColumns` of `TableUtils`;
- the `resizeColumn` helper;
- the `insertTableRowBelow` command;
- the element conversion of a row's children, in the upcast.

## Model

| member | source | states |
|---|---|---|
| TableWalker.NextSpec | src/tablewalker.js:147-200 | `next()` from a cursor. A yielded value is the cell stored at the cell counter of the current row, in a row inside `[startRow, endRow]`, with `rowspan`/`colspan` defaulted to 1 and the table's heading data; the cursor moves strictly forward. `done` comes only past the last row, and only the as-written variant throws |
| TableWalker.NextPass | src/tablewalker.js:147-187 | one pass through the body of `next()`: either it returns, or it calls `next()` again from a cursor strictly later in storage order |
| TableWalker.CellSpans.constructor | src/tablewalker.js:221-228 | a new span map is empty |
| TableWalker.CellSpans.GetAdjustedColumnIndex | src/tablewalker.js:234-244 | the loop returns a column at or after the given one that no recorded span occupies in that row |
| TableWalker.CellSpans.RecordSpans | src/tablewalker.js:280-291 | the loop records `width` at `columnIndex` for every row from `rowIndex + 1` below `rowIndex + height` |
| TableWalker.TableWalker.constructor | src/tablewalker.js:53-131 | a fresh walker starts at row 0, cell 0, column 0, with no previous cell and no spans; absent `startRow`/`endRow` become 0 (no bound); `tableData` holds the heading counts, 0 when absent |
| TableWalker.TableWalker.UpdateSpans | src/tablewalker.js:208-215 | records the previous cell's spans (missing or 0 read as 1) at the current row and column and returns its colspan |
| TableWalker.TableWalker.NextPassOnce | src/tablewalker.js:147-187 | one pass of the method body changes the fields exactly as `NextPass` (as written) says |
| TableWalker.TableWalker.Next | src/tablewalker.js:147-200 | the method returns the step and leaves the cursor that the as-written `NextSpec` gives |
| TableWalker.WalkFrom | src/tablewalker.js:147-200 | the values `next()` yields from a cursor until it is done or throws; only the as-written end-of-row step at a row with no cells can throw, so the corrected walk never does |
| TableWalker.Walk | src/tablewalker.js:147-200 | `[ ...walker ]` from a fresh walker over the rows in range: it throws only as written (`WalkInStorageOrder` says which cells it yields) |
| TableWalker.TableWalker.Collect | src/tablewalker.js:147-200 | draining the walker (`[ ...walker ]`) gives exactly the as-written walk from the current cursor, including whether it throws |
| WalkerProperties.AdjustedSkipsSpans | src/tablewalker.js:234-244 | the adjusted column is free, and every column it moves past is occupied by a recorded span |
| WalkerProperties.AdjustedFree | src/tablewalker.js:234-244 | a free column is left where it is |
| WalkerProperties.RecordRows | src/tablewalker.js:280-291 | after `recordSpans` the rows strictly below the cell and within its height map the column to the width; every other row's spans are unchanged |
| WalkerProperties.NextInOrder | src/tablewalker.js:147-200 | each value `next()` yields is the first in-range stored cell from the cursor on; `done` means none is left |
| WalkerProperties.NextThrows | src/tablewalker.js:164-167 | `next()` throws only when a stored row with no cells lies ahead |
| WalkerProperties.WalkInStorageOrder | src/tablewalker.js:147-200 | a walk that does not throw yields every stored cell of the rows in range exactly once, in storage order. A walk throws iff it is the as-written one and the table has a stored row with no cells |
| WalkerProperties.RangedWalk | src/tablewalker.js:185-187 | a walk with `startRow`/`endRow` is the full walk with the values outside the rows in range dropped |
| WalkerProperties.WalkValues | src/tablewalker.js:189-199 | every value holds the stored cell at its row and index, its `rowspan`/`colspan` (at least 1) and the table's heading counts |
| WalkerProperties.WalkColumns | src/tablewalker.js:155-179 | within a row, consecutive values are consecutive stored cells, and each starts at or after the end of the previous one's colspan |
| WalkerProperties.CorrectedWalkGapFree | src/tablewalker.js:147-200 | in the corrected walk, every column a cell is moved past in its row is covered by a cell from a row above that reaches into this row |
| CellLocation.FullWalk | src/tablewalker.js:147-200 | the full corrected walk names only stored cells and names each stored cell once, in storage order |
| CellLocation.Location | src/commands/mergecellcommand.js:192-193 | `getCellLocation`: a value found is the given cell's own, taken from the full walk (`LocationOf` says every stored cell has one, `NoLocation` that nothing else has) |
| CellLocation.ColumnOf | src/commands/insertcolumncommand.js:80 | `getCellLocation( tableCell ).column`: the column the full walk gives the cell, and the column any corrected walk that reaches the cell gives it, whatever its rows |
| CellLocation.LocationOf | src/tablewalker.js:189-199 | every stored cell has a location, which is its own value: the same cell, its rowspan and its colspan |
| CellLocation.RangedValueIsLocation | src/tablewalker.js:185-199 | a value from a walk bounded by `startRow`/`endRow` is the value the full walk gives for that cell |
| CellLocation.InRangedWalk | src/tablewalker.js:185-187 | a walk bounded by `startRow`/`endRow` finds every stored cell of a row in range |
| CellLocation.SiblingColumns | src/tablewalker.js:155-179 | a cell's next sibling starts at or after the end of its colspan, and every column between them is covered by a rowspan from above |
| CellLocation.RangedWalkSorted | src/tablewalker.js:185-187 | a bounded walk is in storage order and holds only rows in range |
| WalkerExamples.DocExample | src/tablewalker.js:20-45 | the documented example walked with `startRow: 1, endRow: 2` yields exactly cells 12, 24, 25 and 22 at columns 2, 4, 5 and 2 |
| WalkerExamples.ShiftedAsWritten | src/tablewalker.js:164-167 | in `[[A, B(rowspan 2), K(rowspan 2)], [C(rowspan 2)], [D, E]]` the as-written walker puts D at column 2 |
| WalkerExamples.ShiftedCorrected | src/tablewalker.js:155-179 | the corrected walker puts the same D at column 1, right after C's rowspan |
| WalkerExamples.AsWrittenLeavesGap | src/tablewalker.js:164-167 | the as-written walk of that table is not gap-free: column 1 of row 2 is skipped with nothing covering it |
| WalkerExamples.EmptyRowThrows | src/tablewalker.js:164-167 | walking a table whose second stored row is empty throws as written; the corrected walk yields the one cell |
| MergeCell.Localized | src/commands/mergecellcommand.js:160-172 | right-to-left content swaps `left` and `right` and keeps `up`/`down` |
| MergeCell.LocalizedInvolution | src/commands/mergecellcommand.js:160-172 | localizing twice gives the direction back, and it keeps the merge axis |
| MergeCell.Sibling | src/commands/mergecellcommand.js:181-185 | `nextSibling`/`previousSibling` in the same row; none exactly at the row's end/start |
| MergeCell.HorizontalCell | src/commands/mergecellcommand.js:180-202 | the sibling is returned exactly when the left cell's column plus its colspan is the right cell's column |
| MergeCell.HorizontalInverse | src/commands/mergecellcommand.js:180-202 | merging right from a finds b exactly when merging left from b finds a |
| MergeCell.HorizontalRefused | src/commands/mergecellcommand.js:197-201 | a refused sibling starts later than the left cell ends, and the columns between are covered by rowspanned cells from above |
| MergeCell.MergeRow | src/commands/mergecellcommand.js:231-232 | the row the walk runs to: for `down` the row right after the cell's rowspan, strictly below the cell; otherwise the cell's own row |
| MergeCell.FindTarget | src/commands/mergecellcommand.js:239-251 | `find`: the first value in the merge column that starts at the merge row (`down`) or ends right above it (`up`), or none |
| MergeCell.VerticalCell | src/commands/mergecellcommand.js:209-254 | nothing when the direction leaves the table or crosses the heading-row boundary, otherwise the target `find` returns, which is a stored cell |
| MergeCell.VerticalTarget | src/commands/mergecellcommand.js:209-254 | a vertical target starts in the same visual column and right below the cell (`down`) or ends right above it (`up`) |
| MergeCell.VerticalFound | src/commands/mergecellcommand.js:209-254 | conversely, a stored cell in that position is found, when the merge stays in the table and its section |
| MergeCell.MergeableCell | src/commands/mergecellcommand.js:120-150 | nothing outside a cell; otherwise the neighbour in the localized direction, only if its span across the merge axis equals the current cell's |
| MergeCell.MergeableRefusals | src/commands/mergecellcommand.js:125-149 | no sibling, leaving the table or crossing a section disables the command; a touching sibling is accepted iff the cross spans agree |
| MergeEdit.IsEmpty | src/commands/mergecellcommand.js:300-302 | a cell is empty exactly when its content is one paragraph with no text |
| MergeEdit.MergedContent | src/commands/mergecellcommand.js:283-294 | the kept cell's content after the merge: the kept cell's blocks, then the removed cell's, with a lone empty paragraph dropped; two empty cells leave one empty paragraph |
| MergeEdit.MergedContentParts | src/commands/mergecellcommand.js:283-302 | the merged cell is empty exactly when both cells were |
| MergeEdit.MergedCells | src/commands/mergecellcommand.js:283-294 | the kept cell holds the merged content, the removed cell is gone from its row, every other cell is unchanged (later siblings move left), and there is one cell fewer |
| MergeEdit.MergeTableCells | src/commands/mergecellcommand.js:283-294 | the writer steps leave exactly `MergedCells` and keep the selection |
| MergeEdit.NumericAttribute | src/commands/mergecellcommand.js:269 | a value above 1 is stored and anything else removes the attribute, which reads back as 1 |
| MergeEdit.DecrementedAt | src/commands/mergecellcommand.js:265-271 | after the loop, each cell the walk visited is lowered once if it overlaps the removed row, and every other cell is unchanged |
| MergeEdit.RemovedEmptyRow | src/commands/mergecellcommand.js:260-274 | one row fewer, the other rows keep their lengths and the heading counts stay; the cell count drops by the removed row's cells |
| MergeEdit.RemovedEmptyRowCells | src/commands/mergecellcommand.js:260-274 | every cell outside the removed row keeps its place (rows below move up), one rowspan lower exactly when it reaches into the removed row |
| MergeEdit.RemoveEmptyRow | src/commands/mergecellcommand.js:260-274 | the loop leaves the table `RemovedEmptyRow` and keeps the selection |
| MergeEdit.RemoveEmptyRowAsWrittenThrows | src/commands/mergecellcommand.js:265 | the walk `removeEmptyRow` starts over a table holding the emptied row throws with the walker as written, and not with the corrected one |
| MergeEdit.MergeOrder | src/commands/mergecellcommand.js:88-92 | the expanded cell comes before the removed one: for a horizontal merge it is its left sibling, for a vertical one the removed cell starts right below the expanded cell's rowspan |
| MergeEdit.WithSpan | src/commands/mergecellcommand.js:97-104 | the cells are merged and the kept cell gets the new span; everything else is as in `MergedCells` |
| MergeEdit.MergedKept | src/commands/mergecellcommand.js:93-110 | the kept cell holds the merged content and the summed span along the axis, one less when the emptied row is deleted; its other span is untouched; a horizontal merge never empties a row |
| MergeEdit.MergedCounts | src/commands/mergecellcommand.js:93-110 | one cell fewer, one row fewer exactly when the removed cell was alone in its row, heading counts unchanged |
| MergeEdit.MergedFrame | src/commands/mergecellcommand.js:93-110 | every other cell survives unchanged at its shifted address; only when a row is deleted do the cells reaching into it lose one row of rowspan |
| MergeEdit.MergeWithSpan | src/commands/mergecellcommand.js:93-110 | the writer steps leave exactly `Merged` |
| MergeEdit.Execution | src/commands/mergecellcommand.js:80-112 | the outcome's kept cell is a cell of the new table |
| MergeEdit.ExecutionKeptCell | src/commands/mergecellcommand.js:88-97 | the kept cell is the current one for `right`/`down` and the other one for `left`/`up`, holds the merged content, and a horizontal merge never empties the removed cell's row |
| MergeEdit.ExecutionKeptSpans | src/commands/mergecellcommand.js:99-111 | the kept cell spans the sum of both cells' spans along the merge axis (one less when the emptied row is deleted) and keeps the span across the axis that both cells share |
| MergeEdit.ExecutionCounts | src/commands/mergecellcommand.js:80-112 | one cell fewer, one row fewer exactly when the removed cell was alone, heading counts unchanged |
| MergeEdit.ExecutionMerges | src/commands/mergecellcommand.js:88-104 | `execute()` merges the removed cell into the expanded one with the summed span |
| MergeEdit.MergeInto | src/commands/mergecellcommand.js:83-111 | the table becomes the execution's table, and the selection is the range in the kept cell |
| MergeEdit.MergeCellCommand.constructor | src/commands/mergecellcommand.js:41-59 | keeps the direction; `isHorizontal` is `left`/`right` |
| MergeEdit.MergeCellCommand.Refresh | src/commands/mergecellcommand.js:64-71 | `value` is the mergeable cell and the command is enabled iff it exists |
| MergeEdit.MergeCellCommand.Execute | src/commands/mergecellcommand.js:80-112 | the table and selection become the execution's, and the selection still names only cells of the table |
| InsertColumn.OrderOption | src/commands/insertcolumncommand.js:38-48 | an absent or empty `order` becomes `right`, any other is kept |
| InsertColumn.InsertionIndex | src/commands/insertcolumncommand.js:80-100 | the column is the cell's own or the next one, the next exactly when "right" and left-to-right agree |
| InsertColumn.InsertionTable | src/commands/insertcolumncommand.js:80-100 | right/LTR and left/RTL insert after the column; left/LTR and right/RTL insert at it |
| InsertColumn.InsertionMirrored | src/commands/insertcolumncommand.js:80-100 | RTL mirrors LTR, `left` and `right` are opposite, and any order other than `right` acts as `left` |
| InsertColumn.InsertColumnCommand.constructor | src/commands/insertcolumncommand.js:38-48 | disabled, with the defaulted order |
| InsertColumn.InsertColumnCommand.Refresh | src/commands/insertcolumncommand.js:53-59 | enabled iff the selection is in a table |
| InsertColumn.InsertColumnCommand.Execute | src/commands/insertcolumncommand.js:69-103 | outside a cell it fails and changes nothing; in a cell it inserts one column at `InsertionIndex` of the cell's visual column |
| Upcast.Filtered | src/converters/upcasttable.js:166-167 | only `td`/`th` children are kept |
| Upcast.ScanRowForHeadingColumns | src/converters/upcasttable.js:161-181 | the loop adds up the colspans of the leading `th` cells (a missing colspan counts 1) and stops at the first `td` |
| Upcast.ScanIgnoresOthers | src/converters/upcasttable.js:161-181 | a child that is neither `td` nor `th` changes nothing |
| Upcast.ScanStopsAtTd | src/converters/upcasttable.js:161-181 | nothing after the first `td` counts |
| Upcast.ScanCountsHeadings | src/converters/upcasttable.js:161-181 | a row of plain `th` cells counts each one |
| Upcast.FirstThead | src/converters/upcasttable.js:99-101 | any index found is a `thead` |
| Upcast.FirstTheadIsFirst | src/converters/upcasttable.js:99-101 | no `thead` comes before the one found |
| Upcast.MaxHeadingColumnsIsMax | src/converters/upcasttable.js:108-116 | the heading-column count bounds every body row's leading `th` run and equals one of them unless it is 0 |
| Upcast.ScanTable | src/converters/upcasttable.js:83-125 | the loop gives exactly `Scanned`: the first `thead`'s rows are head rows, every other row is a body row and can raise the heading columns |
| Upcast.NonZero | src/converters/upcasttable.js:33-36 | 0 is removed and any other count is stored |
| Upcast.UpcastTableRows | src/converters/upcasttable.js:133-150 | the loop converts each row in order; no rows gives one row with one cell that has no children |
| Upcast.UpcastTable | src/converters/upcasttable.js:20-46 | the converted table is `Upcasted` |
| Upcast.ScannedRowOrder | src/converters/upcasttable.js:99-122 | the rows come out as the first `thead`'s rows, then every other `thead`/`tbody`/`tfoot` row in document order (without a `thead`, all in document order) |
| Upcast.ScannedRowsPermuted | src/converters/upcasttable.js:83-125 | every row of a row-holding child is converted exactly once |
| Upcast.UpcastedHeadings | src/converters/upcasttable.js:33-36 | heading rows are the first `thead`'s row count and heading columns the largest body-row `th` run, each unset when 0 |
| Upcast.UpcastedEmpty | src/converters/upcasttable.js:143-149 | a table with no rows becomes one empty cell with no heading attributes |
| Downcast.CellElementName | src/converters/downcast.js:278-293 | `th` iff the cell's row is a heading row or its column a heading column, `td` otherwise |
| Downcast.SectionName | src/converters/downcast.js:299-303 | `thead` iff the row is a heading row, `tbody` otherwise |
| Downcast.HeadingsOnlyGrow | src/converters/downcast.js:278-303 | raising the heading counts never turns a `th` back into a `td` or a `thead` row into a `tbody` row |
| Downcast.HeadCellsAreHeadings | src/converters/downcast.js:278-303 | every cell of a `thead` row is a `th` |
| Downcast.TrOffset | src/converters/downcast.js:264-265 | the `<tr>` offset is never negative and never past the row's own index |
| Downcast.TrOffsetCountsSection | src/converters/downcast.js:264-265 | the `<tr>` offset equals the number of earlier rows of the same section |
| Downcast.ExistingSection | src/converters/downcast.js:331-337 | the first child with the section's name, or none |
| Downcast.CreateTableSection | src/converters/downcast.js:345-351 | a new empty `tbody` goes at the end, any other section at the start |
| Downcast.RemoveTableSectionIfEmpty | src/converters/downcast.js:358-364 | the existing section is removed iff it has no rows; otherwise the children stay |
| Downcast.CreateThenRemove | src/converters/downcast.js:345-364 | a created section is the one found (for `tbody`, when none existed), and removing it while empty restores the children |
| TableEditing.TabTarget | src/tableediting.js:267-332 | a focused target is a cell of the resulting table; the table changes only for Tab in the last cell of the last row |
| TableEditing.TabWithinRow | src/tableediting.js:324-326 | inside a row Tab goes to the next cell, Shift+Tab to the previous one |
| TableEditing.TabAcrossRows | src/tableediting.js:291-322 | Tab from a row's last cell goes to the next row's first cell, Shift+Tab from a row's first cell to the previous row's last cell; Shift+Tab in the first cell stays |
| TableEditing.TabAtTableEnd | src/tableediting.js:299-307 | Tab in the last cell inserts a row below; if none was added the selection stays, otherwise it goes to the new row's first cell |
| TableEditing.TabRoundTrip | src/tableediting.js:312-326 | Tab then Shift+Tab, without a row insertion, returns to the start cell, and the other way round |
| TableEditing.TableEditingHandlers.constructor | src/tableediting.js:228-230 | not resizing at first: the unset `_isResizing` reads as false |
| TableEditing.TableEditingHandlers.HandleTabOnSelectedTable | src/tableediting.js:184-201 | on a selected table the key is cancelled and the first cell selected; otherwise nothing happens |
| TableEditing.TableEditingHandlers.TabHandler | src/tableediting.js:267-332 | outside a cell nothing happens; in a cell the key is cancelled and the table and selection become what `TabTarget` says, failing where the target row has no cells |
| TableEditing.TableEditingHandlers.OnMousedown | src/tableediting.js:211-218 | a press on a resizer starts a drag at the pointer; any other press changes nothing |
| TableEditing.TableEditingHandlers.OnMousemove | src/tableediting.js:228-242 | while resizing, a move issues the distance from the last baseline and makes the pointer the new baseline. The amounts issued add up to the pointer's travel since mousedown |
| TableEditing.TableEditingHandlers.OnMouseup | src/tableediting.js:252-258 | ends the drag |
| ResizeColumn.ColWidth | src/commands/resizecolumncommand.js:75 | the selected cell's width: its `colwidth` when set and not 0, otherwise 32; never 0 |
| ResizeColumn.Resized | src/commands/resizecolumncommand.js:79-80 | the table keeps its shape and attributes |
| ResizeColumn.ResizedCells | src/commands/resizecolumncommand.js:66-80 | every row's cell at the column's storage index gets the new width; no other cell changes |
| ResizeColumn.ResizeColumnCommand.constructor | src/commands/resizecolumncommand.js:28-40 | disabled at first |
| ResizeColumn.ResizeColumnCommand.Refresh | src/commands/resizecolumncommand.js:43-50 | enabled iff the selection is in a cell |
| ResizeColumn.ResizeColumnCommand.Execute | src/commands/resizecolumncommand.js:55-82 | the loop resizes every row as `Resized` says, to the selected cell's width (`colwidth`, 32 when unset or 0) plus the amount |
| Attributes.SetOrRemove | src/tablecellproperties/commands/tablecellpropertycommand.js:64-70 | afterwards the attribute reads back as the value if it is truthy and as unset otherwise; other attributes are untouched |
| Attributes.SetOrRemoveTwice | src/tablecellproperties/commands/tablecellpropertycommand.js:64-70 | setting or removing twice is the same as once |
| TableCellProperty.SelectedTableCells | src/tablecellproperties/commands/tablecellpropertycommand.js:119-125 | a cell is listed iff some selected block lies in it; blocks outside cells are dropped, so there are never more cells than blocks |
| TableCellProperty.SelectedOncePerBlock | src/tablecellproperties/commands/tablecellpropertycommand.js:119-125 | a cell is listed once for every selected block inside it |
| TableCellProperty.SelectedCellsStored | src/tablecellproperties/commands/tablecellpropertycommand.js:119-125 | the selected cells are cells of the table |
| TableCellProperty.SingleValue | src/tablecellproperties/commands/tablecellpropertycommand.js:107-113 | a value is returned iff some cell is selected, the first has the attribute and all agree on it; it is then every cell's value |
| TableCellProperty.ValueToSet | src/tablecellproperties/commands/tablecellpropertycommand.js:95-97 | the value is set as given |
| TableCellProperty.WriteCells | src/tablecellproperties/commands/tablecellpropertycommand.js:64-70 | the table keeps its shape and attributes |
| TableCellProperty.WriteCellsAt | src/tablecellproperties/commands/tablecellpropertycommand.js:64-70 | each selected cell has the attribute set or removed, even if listed twice; unlisted cells stay |
| TableCellProperty.WriteCellsIdempotent | src/tablecellproperties/commands/tablecellpropertycommand.js:56-71 | executing twice with one value leaves what executing once leaves |
| TableCellProperty.RefreshAfterExecute | src/tablecellproperties/commands/tablecellpropertycommand.js:37-71 | after execution the refreshed value is the value written if truthy, and unset otherwise |
| TableCellProperty.TableCellPropertyCommand.constructor | src/tablecellproperties/commands/tablecellpropertycommand.js:28-32 | keeps the attribute name |
| TableCellProperty.TableCellPropertyCommand.Refresh | src/tablecellproperties/commands/tablecellpropertycommand.js:37-44 | enabled iff some selected block is in a cell; the value is `SingleValue` |
| TableCellProperty.TableCellPropertyCommand.Execute | src/tablecellproperties/commands/tablecellpropertycommand.js:56-71 | the loop writes every selected cell, leaving exactly `WriteCells` |
| TableProperty.TableValue | src/tableproperties/commands/tablepropertycommand.js:80-86 | outside a table nothing; inside, the table's attribute if set |
| TableProperty.RefreshAfterExecute | src/tableproperties/commands/tablepropertycommand.js:37-71 | after execution the refreshed value is the value written if truthy, and unset otherwise |
| TableProperty.TablePropertyCommand.constructor | src/tableproperties/commands/tablepropertycommand.js:28-32 | keeps the attribute name |
| TableProperty.TablePropertyCommand.Refresh | src/tableproperties/commands/tablepropertycommand.js:37-45 | enabled iff inside a table; the value is the table's attribute |
| TableProperty.TablePropertyCommand.Execute | src/tableproperties/commands/tablepropertycommand.js:56-71 | a truthy value is set on the table and anything else removes it; nothing else changes |

## Left out

- I/O and the rest of the editor:
  - The editor's mouse observers and event plumbing (the listener wiring in `TableEditing#init`) are not modelled.
  - DOM coordinates are plain integers.
  - The view writer's position and mapping plumbing is not modelled.
  - The upcast's own per-element conversion is a parameter.
- The TableUtils functions: `insertColumns`, `getCellLocation` (modelled by the full corrected walk, `CellLocation.Location`, see below) and the `resizeColumn` helper. Their code is not part of this model, so the commands take them as parameters and the model states what the commands pass them.
- `parseInt`: attribute values are numbers in the model, so a non-numeric value (which would give `NaN`) is not modelled.
- `MergeEdit.NumericAttribute`: the helper `updateNumericAttribute` is not part of this model. It is taken to store a value above 1 and remove the attribute otherwise.
- `MergeEdit.RemoveEmptyRow`: models the corrected walker, and walks first and writes afterwards. The source walks lazily while it writes: the cell it lowers is the one just yielded, and the next `next()` reads that lowered `rowspan` back when it records the cell's spans, so one row fewer is recorded. That row is `row + rowspan - 1`, which is at or past `removedRowIndex`: either the emptied row, which has no cells, or a row past `endRow`, whose cells are never yielded. So no yielded column changes and the result is the same.
- `MergeCell.VerticalCell`: walks with the corrected walker, while `getVerticalCell` drains the `TableWalker` as written. They differ on `[[A, B(rowspan 2), K(rowspan 2)], [C(rowspan 2)], [D, E]]` merging up from D: as written D is at column 2 (`WalkerExamples.ShiftedAsWritten`), so `find` returns K at (0, 2); the model puts D at column 1 and returns B at (0, 1). `MergeCell.MergeableCell`, `MergeEdit.MergeCellCommand.Refresh` and `MergeEdit.Execution` inherit this.
- `CellLocation.Location`: `getCellLocation` is not part of this model and is taken to read the corrected walk, so `ColumnOf`, `MergeCell.HorizontalCell` and `InsertColumn.InsertColumnCommand.Execute` see corrected columns; on the table above, D's column is 1 where the as-written walker would give 2.
- `InsertColumn.InsertColumnCommand.Execute`: keeps the selection's address. In the editor the selection stays on the same cell element, which moves to a later storage index when the column is inserted at or before it; `insertColumns` is a parameter here, so the model does not remap the selection and does not promise that it still names the caret's cell afterwards.
- `MergeEdit.IsEmpty`: a block is a paragraph holding text or another block, so a paragraph with no text counts as empty. A paragraph holding only inline objects (an image, a soft break), which the source's `paragraph.isEmpty` does not count as empty, cannot be expressed.
- `ResizeColumn.ResizeColumnCommand.Execute`:
  - requires the selection in a cell: the source's comment speaks of the top cell, and the code reads the selected cell's width;
  - a row without a cell at that index, which the source would pass as `undefined`, is left unchanged.
- `TableEditing.TableEditingHandlers.constructor`: `_resizeStart` starts undefined in the source; the model starts it at 0, which is never read before a mousedown.
- Cached table sections (`cachedTableSections` of `getOrCreateTableSection`), downcast converters other than the helpers listed, and `downcastRemoveRow` are not modelled.
- Attribute values of the property commands are strings; other JavaScript values (numbers, objects) and their truthiness are not modelled.
- The undo batch argument of the property commands is not modelled.

## Findings

| source | as written | input that shows it | evidently intended | confidence | as-written member | corrected member |
|---|---|---|---|---|---|---|
| src/tablewalker.js:167 | at the end of a row `next()` calls `_updateSpans()` again, recording the last cell's rowspan a second time one colspan further right | `[[A, B(rowspan 2), K(rowspan 2)], [C(rowspan 2)], [D, E]]`: D is put at column 2, column 1 of the third row stays empty | spans recorded once per cell, D at column 1 | not executed | WalkerExamples.AsWrittenLeavesGap | WalkerProperties.CorrectedWalkGapFree |
| src/tablewalker.js:167 | the same call reads `_previousCell` after a row with no cells, which is undefined, and throws; `removeEmptyRow` walks just such a table (src/commands/mergecellcommand.js:265) | `[[A], []]`, or any vertical merge that empties a row | an empty row is passed over | not executed | MergeEdit.RemoveEmptyRowAsWrittenThrows | TableWalker.WalkFrom |
