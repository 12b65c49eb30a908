/**
 * What `MergeCellCommand#execute` does to the table: `mergeTableCells` moves the content and
 * removes one cell, the kept cell's span along the merge axis becomes the sum of both, and
 * `removeEmptyRow` deletes a row the removal left without cells, lowering the rowspans that
 * reached into it.
 */
module MergeEdit {
  import opened Wrappers
  import opened TableModel
  import opened TableWalker
  import opened WalkerProperties
  import opened CellLocation
  import opened Editor
  import opened MergeCell

  // ----- Content ------------------------------------------------------------------------

  /** `isEmpty`: the cell holds exactly one paragraph and that paragraph has no text. */
  predicate IsEmpty(c: Cell): (r: bool)
    ensures r <==> c.content == [Paragraph("")]
  {
    |c.content| == 1 && c.content[0].Paragraph? && c.content[0].text == ""
  }

  /**
   * The content `mergeTableCells` leaves in the kept cell: every block of both cells, kept
   * cell first, but a lone placeholder paragraph; two empty cells leave one placeholder.
   */
  function MergedContent(expand: Cell, remove: Cell): (r: seq<Block>)
    ensures !(IsEmpty(expand) && IsEmpty(remove)) ==> r == Substance(expand) + Substance(remove)
    ensures IsEmpty(expand) && IsEmpty(remove) ==> r == [Paragraph("")]
  {
    if IsEmpty(remove) then expand.content
    else if IsEmpty(expand) then remove.content
    else expand.content + remove.content
  }

  /** The content of a cell with its lone empty paragraph, if that is all it has, dropped. */
  function Substance(c: Cell): seq<Block> {
    if IsEmpty(c) then [] else c.content
  }

  /** The merged cell is empty exactly when both cells were. */
  lemma MergedContentParts(expand: Cell, remove: Cell)
    ensures IsEmpty(expand.(content := MergedContent(expand, remove))) <==> IsEmpty(expand) && IsEmpty(remove)
  {
  }

  /**
   * `mergeTableCells( cellToRemove, cellToExpand )` as a function: the kept cell takes the
   * merged content and the removed cell leaves its row.
   */
  function MergedCells(t: Table, remove: Addr, expand: Addr): (r: Table)
    requires ValidAddr(t, remove) && ValidAddr(t, expand) && Before(expand, remove)
    ensures ValidAddr(r, expand)
    ensures CellAt(r, expand) == CellAt(t, expand).(content := MergedContent(CellAt(t, expand), CellAt(t, remove)))
    ensures forall x :: ValidAddr(t, x) && x != remove && x != expand ==>
      ValidAddr(r, AfterRemoveCell(x, remove)) && CellAt(r, AfterRemoveCell(x, remove)) == CellAt(t, x)
    ensures |r.rows| == |t.rows| && |r.rows[remove.row]| + 1 == |t.rows[remove.row]|
    ensures forall i :: 0 <= i < |t.rows| && i != remove.row ==> |r.rows[i]| == |t.rows[i]|
    ensures r.headingRows == t.headingRows && r.headingColumns == t.headingColumns
    ensures CellCount(r) + 1 == CellCount(t)
  {
    var kept := CellAt(t, expand).(content := MergedContent(CellAt(t, expand), CellAt(t, remove)));
    var withContent := SetCell(t, expand, kept);
    assert AfterRemoveCell(expand, remove) == expand;
    CountShape(withContent.rows, t.rows);
    CountUpdate(withContent.rows, remove.row, withContent.rows[remove.row][..remove.index] + withContent.rows[remove.row][remove.index + 1..]);
    RemoveCell(withContent, remove)
  }

  /** `mergeTableCells`: move the content with the writer, then remove the merged cell. */
  method MergeTableCells(doc: Document, cellToRemove: Addr, cellToExpand: Addr)
    requires ValidAddr(doc.table, cellToRemove) && ValidAddr(doc.table, cellToExpand)
    requires Before(cellToExpand, cellToRemove)
    modifies doc
    ensures doc.table == MergedCells(old(doc.table), cellToRemove, cellToExpand)
    ensures doc.selection == old(doc.selection)
  {
    var t := doc.table;
    var removed := CellAt(doc.table, cellToRemove);
    var expanded := CellAt(doc.table, cellToExpand);
    if !IsEmpty(removed) {
      if IsEmpty(expanded) {
        doc.table := SetCell(doc.table, cellToExpand, CellAt(doc.table, cellToExpand).(content := []));
      }
      var target := CellAt(doc.table, cellToExpand);
      doc.table := SetCell(doc.table, cellToExpand, target.(content := target.content + removed.content));
      if IsEmpty(expanded) {
        assert [] + removed.content == removed.content;
        SetCellTwice(t, cellToExpand, expanded.(content := []), expanded.(content := removed.content));
      }
    } else {
      assert expanded.(content := expanded.content) == expanded;
      SetCellSame(t, cellToExpand);
    }
    doc.table := RemoveCell(doc.table, cellToRemove);
  }

  // ----- removeEmptyRow ------------------------------------------------------------------

  /**
   * `updateNumericAttribute( 'rowspan', value, cell )`: a value above 1 is stored, anything
   * else removes the attribute; reading it back with `|| 1` gives the value, at least 1.
   */
  function NumericAttribute(value: int): (r: Option<nat>)
    ensures Span(r) == if value > 1 then value else 1
    ensures r.None? <==> value <= 1
  {
    if value > 1 then Some(value) else None
  }

  /** `overlapsRemovedRow`: the walked cell reaches down to the removed row or past it. */
  predicate Overlaps(v: WalkerValue, removedRow: nat) {
    v.row + v.rowspan - 1 >= removedRow
  }

  /** A walked cell whose rowspan one turn of the `removeEmptyRow` loop lowers. */
  function Lowered(c: Cell, v: WalkerValue, removedRow: nat): Cell {
    if Overlaps(v, removedRow) then c.(rowspan := NumericAttribute(v.rowspan - 1)) else c
  }

  /** Every value names a stored cell of `t`. */
  predicate AllStored(t: Table, w: seq<WalkerValue>) {
    forall k :: 0 <= k < |w| ==> ValidAddr(t, AddrOf(w[k]))
  }

  /** Values naming cells of a table name cells of every table of its shape. */
  lemma StoredInSameShape(t: Table, u: Table, w: seq<WalkerValue>, i: nat)
    requires AllStored(t, w) && SameShape(u, t) && i <= |w|
    ensures AllStored(u, w[i..])
  {
    forall k | 0 <= k < |w[i..]|
      ensures ValidAddr(u, AddrOf(w[i..][k]))
    {
      assert w[i..][k] == w[i + k];
    }
  }

  /** No two values name the same cell. */
  predicate Distinct(w: seq<WalkerValue>) {
    forall p, q :: 0 <= p < q < |w| ==> AddrOf(w[p]) != AddrOf(w[q])
  }

  /** The table after one turn of the loop, for the walked value `v`. */
  function DecrementStep(t: Table, v: WalkerValue, removedRow: nat): (r: Table)
    requires ValidAddr(t, AddrOf(v))
    ensures SameShape(r, t) && r.headingRows == t.headingRows && r.headingColumns == t.headingColumns
    ensures CellAt(r, AddrOf(v)) == Lowered(CellAt(t, AddrOf(v)), v, removedRow)
    ensures forall x :: ValidAddr(t, x) && x != AddrOf(v) ==> CellAt(r, x) == CellAt(t, x)
  {
    if Overlaps(v, removedRow) then
      SetCell(t, AddrOf(v), CellAt(t, AddrOf(v)).(rowspan := NumericAttribute(v.rowspan - 1)))
    else t
  }

  /** The table after the loop over the walked values `w`. */
  function Decremented(t: Table, w: seq<WalkerValue>, removedRow: nat): (r: Table)
    requires AllStored(t, w)
    ensures SameShape(r, t) && r.headingRows == t.headingRows && r.headingColumns == t.headingColumns
    decreases |w|
  {
    if w == [] then t else Decremented(DecrementStep(t, w[0], removedRow), w[1..], removedRow)
  }

  /**
   * After the loop each cell is lowered by the value that walked it, if any: a cell is
   * written at most once because the walk names each cell once.
   */
  lemma {:induction false} DecrementedAt(t: Table, w: seq<WalkerValue>, removedRow: nat, x: Addr)
    requires AllStored(t, w) && Distinct(w) && ValidAddr(t, x)
    ensures CellAt(Decremented(t, w, removedRow), x) ==
      match IndexOf(w, x)
      case Some(k) => Lowered(CellAt(t, x), w[k], removedRow)
      case None => CellAt(t, x)
    decreases |w|
  {
    if w != [] {
      var next := DecrementStep(t, w[0], removedRow);
      assert forall k :: 0 <= k < |w[1..]| ==> w[1..][k] == w[k + 1];
      DecrementedAt(next, w[1..], removedRow, x);
      if AddrOf(w[0]) == x {
        assert IndexOf(w[1..], x).None?;
      } else {
        match IndexOf(w[1..], x)
        case Some(k) => assert IndexOf(w, x) == Some(k + 1);
        case None =>
      }
    }
  }

  /**
   * `removeEmptyRow` as a function: lower every cell the walk up to the removed row finds
   * reaching into it, then take the row out.
   */
  function RemovedEmptyRow(t: Table, removedRow: nat): (r: Table)
    requires removedRow < |t.rows|
    ensures |r.rows| + 1 == |t.rows|
    ensures forall i :: 0 <= i < |r.rows| ==> |r.rows[i]| == |t.rows[if i < removedRow then i else i + 1]|
    ensures r.headingRows == t.headingRows && r.headingColumns == t.headingColumns
    ensures CellCount(r) + |t.rows[removedRow]| == CellCount(t)
  {
    WalkValues(t, 0, removedRow, Corrected);
    var d := Decremented(t, Walk(t, 0, removedRow, Corrected).values, removedRow);
    CountShape(d.rows, t.rows);
    CountRemove(d.rows, removedRow);
    RemoveRow(d, removedRow)
  }

  /** A cell of a row at or above the removed one that reaches into it. */
  predicate ReachesInto(t: Table, x: Addr, removedRow: nat)
    requires ValidAddr(t, x)
  {
    InRange(0, removedRow, x.row) && x.row + Span(CellAt(t, x).rowspan) - 1 >= removedRow
  }

  /**
   * After `removeEmptyRow` every cell outside the removed row is still there, one row up if
   * it was below it; the cells that reached into the removed row have one row less, and no
   * other cell changes.
   */
  lemma RemovedEmptyRowCells(t: Table, removedRow: nat, x: Addr)
    requires removedRow < |t.rows| && ValidAddr(t, x) && x.row != removedRow
    ensures ValidAddr(RemovedEmptyRow(t, removedRow), AfterRemoveRow(x, removedRow))
    ensures CellAt(RemovedEmptyRow(t, removedRow), AfterRemoveRow(x, removedRow)) ==
      if ReachesInto(t, x, removedRow)
      then CellAt(t, x).(rowspan := NumericAttribute(Span(CellAt(t, x).rowspan) - 1))
      else CellAt(t, x)
  {
    var w := Walk(t, 0, removedRow, Corrected).values;
    WalkValues(t, 0, removedRow, Corrected);
    var d := Decremented(t, w, removedRow);
    assert CellAt(d, x) == if ReachesInto(t, x, removedRow)
      then CellAt(t, x).(rowspan := NumericAttribute(Span(CellAt(t, x).rowspan) - 1))
      else CellAt(t, x)
    by {
      RangedWalkSorted(t, 0, removedRow);
      DecrementedAt(t, w, removedRow, x);
      if InRange(0, removedRow, x.row) {
        InRangedWalk(t, 0, removedRow, x);
      } else {
        assert IndexOf(w, x).None?;
      }
    }
    RemoveRowCells(d, removedRow, x);
  }

  /** `removeEmptyRow`: the walk up to the removed row, lowering rowspans, then the removal. */
  method RemoveEmptyRow(doc: Document, removedRowIndex: nat)
    requires removedRowIndex < |doc.table.rows|
    modifies doc
    ensures doc.table == RemovedEmptyRow(old(doc.table), removedRowIndex)
    ensures doc.selection == old(doc.selection)
  {
    var t := doc.table;
    var walked := Walk(t, 0, removedRowIndex, Corrected).values;
    WalkValues(t, 0, removedRowIndex, Corrected);
    var i := 0;
    while i < |walked|
      invariant 0 <= i <= |walked|
      invariant SameShape(doc.table, t)
      invariant doc.selection == old(doc.selection)
      invariant AllStored(doc.table, walked[i..])
      invariant Decremented(doc.table, walked[i..], removedRowIndex) == Decremented(t, walked, removedRowIndex)
    {
      ghost var before := doc.table;
      var v := walked[i];
      assert walked[i..][0] == v && walked[i..][1..] == walked[i + 1..];
      if v.row + v.rowspan - 1 >= removedRowIndex {
        var cell := AddrOf(v);
        doc.table := SetCell(doc.table, cell, CellAt(doc.table, cell).(rowspan := NumericAttribute(v.rowspan - 1)));
      }
      assert doc.table == DecrementStep(before, v, removedRowIndex);
      StoredInSameShape(t, doc.table, walked, i + 1);
      i := i + 1;
    }
    assert doc.table == Decremented(t, walked, removedRowIndex);
    doc.table := RemoveRow(doc.table, removedRowIndex);
  }

  /**
   * The walker as written throws on the emptied row that `removeEmptyRow` walks up to: the
   * merge that empties a row would fail there.
   */
  lemma RemoveEmptyRowAsWrittenThrows(t: Table, removedRow: nat)
    requires removedRow < |t.rows| && |t.rows[removedRow]| == 0
    ensures Walk(t, 0, removedRow, AsWritten).threw
    ensures !Walk(t, 0, removedRow, Corrected).threw
  {
    WalkInStorageOrder(t, 0, removedRow, AsWritten);
    WalkInStorageOrder(t, 0, removedRow, Corrected);
  }

  // ----- execute -------------------------------------------------------------------------

  /** `cellToExpand`: the current cell for `right` and `down`, the other one for `left` and `up`. */
  function Kept(current: Addr, other: Addr, dir: Direction): Addr {
    if dir == Right || dir == Down then current else other
  }

  /** `cellToRemove`: the one of the two cells that is not kept. */
  function Removed(current: Addr, other: Addr, dir: Direction): Addr {
    if dir == Right || dir == Down then other else current
  }

  /**
   * The kept cell is the left or upper one: horizontally the removed cell is its right
   * neighbour in storage, vertically it starts in the row right below the kept cell's last.
   */
  lemma MergeOrder(t: Table, current: Addr, d: Direction, lang: ContentDirection)
    requires ValidAddr(t, current) && MergeableCell(t, InCell(current), d, lang).Some?
    ensures var other := MergeableCell(t, InCell(current), d, lang).value;
      var dir := Localized(d, lang);
      var k, r := Kept(current, other, dir), Removed(current, other, dir);
      && ValidAddr(t, k) && ValidAddr(t, r) && Before(k, r)
      && (IsHorizontal(d) ==> r.row == k.row && r.index == k.index + 1)
      && (!IsHorizontal(d) ==> r.row == k.row + Span(CellAt(t, k).rowspan))
  {
    LocalizedInvolution(d, lang);
    if !IsHorizontal(d) {
      VerticalTarget(t, current, d);
    }
  }

  /** The cell holds its only row: removing it leaves the row empty. */
  predicate AloneInRow(t: Table, a: Addr)
    requires ValidAddr(t, a)
  {
    |t.rows[a.row]| == 1
  }

  /** `writer.setAttribute( spanAttribute, span, cellToExpand )`. */
  function WithAxisSpan(c: Cell, horizontal: bool, span: nat): Cell {
    if horizontal then c.(colspan := Some(span)) else c.(rowspan := Some(span))
  }

  /** The table once the content has moved and the kept cell has its new span. */
  function WithSpan(t: Table, remove: Addr, expand: Addr, horizontal: bool, span: nat): (r: Table)
    requires ValidAddr(t, remove) && ValidAddr(t, expand) && Before(expand, remove)
    ensures ValidAddr(r, expand)
    ensures CellAt(r, expand) ==
      WithAxisSpan(CellAt(t, expand).(content := MergedContent(CellAt(t, expand), CellAt(t, remove))), horizontal, span)
    ensures forall x :: ValidAddr(t, x) && x != remove && x != expand ==>
      ValidAddr(r, AfterRemoveCell(x, remove)) && CellAt(r, AfterRemoveCell(x, remove)) == CellAt(t, x)
    ensures |r.rows| == |t.rows| && |r.rows[remove.row]| + 1 == |t.rows[remove.row]|
    ensures forall i :: 0 <= i < |t.rows| && i != remove.row ==> |r.rows[i]| == |t.rows[i]|
    ensures r.headingRows == t.headingRows && r.headingColumns == t.headingColumns
    ensures CellCount(r) + 1 == CellCount(t)
  {
    var merged := MergedCells(t, remove, expand);
    var r := SetCell(merged, expand, WithAxisSpan(CellAt(merged, expand), horizontal, span));
    CountShape(r.rows, merged.rows);
    assert forall x :: ValidAddr(t, x) && x != remove && x != expand ==> AfterRemoveCell(x, remove) != expand;
    r
  }

  /** The table after the merge: the spanned table, less the removed cell's row if that is now empty. */
  function Merged(t: Table, remove: Addr, expand: Addr, horizontal: bool, span: nat): Table
    requires ValidAddr(t, remove) && ValidAddr(t, expand) && Before(expand, remove)
  {
    var spanned := WithSpan(t, remove, expand, horizontal, span);
    if |spanned.rows[remove.row]| == 0 then RemovedEmptyRow(spanned, remove.row) else spanned
  }

  /**
   * The kept cell after the merge, for a removed cell beside it or right below it and a span
   * wider than the kept cell's own: it holds the merged content and the new span, one row
   * shorter when the removed row is deleted; a horizontal merge never deletes a row.
   */
  lemma MergedKept(t: Table, remove: Addr, expand: Addr, horizontal: bool, span: nat)
    requires ValidAddr(t, remove) && ValidAddr(t, expand) && Before(expand, remove)
    requires horizontal ==> remove.row == expand.row
    requires !horizontal ==> remove.row == expand.row + Span(CellAt(t, expand).rowspan)
    requires !horizontal ==> span > Span(CellAt(t, expand).rowspan)
    ensures var m := Merged(t, remove, expand, horizontal, span);
      && ValidAddr(m, expand)
      && CellAt(m, expand).content == MergedContent(CellAt(t, expand), CellAt(t, remove))
      && (horizontal ==> !AloneInRow(t, remove))
      && (horizontal ==> CellAt(m, expand).colspan == Some(span) && CellAt(m, expand).rowspan == CellAt(t, expand).rowspan)
      && (!horizontal ==> CellAt(m, expand).colspan == CellAt(t, expand).colspan)
      && (!horizontal ==> Span(CellAt(m, expand).rowspan) == span - (if AloneInRow(t, remove) then 1 else 0))
  {
    var spanned := WithSpan(t, remove, expand, horizontal, span);
    if |spanned.rows[remove.row]| == 0 {
      RemovedEmptyRowCells(spanned, remove.row, expand);
      assert ReachesInto(spanned, expand, remove.row);
    }
  }

  /**
   * The merge removes one cell, and one row exactly when the removed cell was alone in it;
   * the heading counts stay.
   */
  lemma MergedCounts(t: Table, remove: Addr, expand: Addr, horizontal: bool, span: nat)
    requires ValidAddr(t, remove) && ValidAddr(t, expand) && Before(expand, remove)
    ensures var m := Merged(t, remove, expand, horizontal, span);
      && CellCount(m) + 1 == CellCount(t)
      && |m.rows| + (if AloneInRow(t, remove) then 1 else 0) == |t.rows|
      && m.headingRows == t.headingRows && m.headingColumns == t.headingColumns
  {
  }

  /**
   * Every other cell is still there and unchanged, after the removed cell's later siblings
   * move left and, when its row is deleted, the later rows move up; only in that case do the
   * cells reaching into the deleted row have one row less.
   */
  lemma MergedFrame(t: Table, remove: Addr, expand: Addr, horizontal: bool, span: nat, y: Addr)
    requires ValidAddr(t, remove) && ValidAddr(t, expand) && Before(expand, remove)
    requires ValidAddr(t, y) && y != remove && y != expand
    ensures var z := AfterRemoveCell(y, remove);
      && (AloneInRow(t, remove) ==> z.row != remove.row)
      && var m := Merged(t, remove, expand, horizontal, span);
         var p := if AloneInRow(t, remove) then AfterRemoveRow(z, remove.row) else z;
         && ValidAddr(m, p)
         && CellAt(m, p) ==
            if AloneInRow(t, remove) && ReachesInto(t, y, remove.row)
            then CellAt(t, y).(rowspan := NumericAttribute(Span(CellAt(t, y).rowspan) - 1))
            else CellAt(t, y)
  {
    var spanned := WithSpan(t, remove, expand, horizontal, span);
    var z := AfterRemoveCell(y, remove);
    if |spanned.rows[remove.row]| == 0 {
      RemovedEmptyRowCells(spanned, remove.row, z);
    }
  }

  /** The table steps of `execute()`: merge the cells, set the span, delete an emptied row. */
  method MergeWithSpan(doc: Document, cellToRemove: Addr, cellToExpand: Addr, horizontal: bool, span: nat)
    requires ValidAddr(doc.table, cellToRemove) && ValidAddr(doc.table, cellToExpand)
    requires Before(cellToExpand, cellToRemove)
    modifies doc
    ensures doc.table == Merged(old(doc.table), cellToRemove, cellToExpand, horizontal, span)
    ensures doc.selection == old(doc.selection)
  {
    ghost var t := doc.table;
    var removedTableCellRow := cellToRemove.row;
    MergeTableCells(doc, cellToRemove, cellToExpand);
    doc.table := SetCell(doc.table, cellToExpand, WithAxisSpan(CellAt(doc.table, cellToExpand), horizontal, span));
    assert doc.table == WithSpan(t, cellToRemove, cellToExpand, horizontal, span);
    if |doc.table.rows[removedTableCellRow]| == 0 {
      RemoveEmptyRow(doc, removedTableCellRow);
    }
  }

  /** The table after `execute()`, and the address of the kept cell the selection goes into. */
  datatype Outcome = Outcome(table: Table, kept: Addr)

  /** `execute()` as a function of the table, the current cell, the direction and the locale. */
  function Execution(t: Table, current: Addr, d: Direction, lang: ContentDirection): (o: Outcome)
    requires ValidAddr(t, current) && MergeableCell(t, InCell(current), d, lang).Some?
    ensures ValidAddr(o.table, o.kept)
  {
    MergeOrder(t, current, d, lang);
    var other := MergeableCell(t, InCell(current), d, lang).value;
    var dir := Localized(d, lang);
    var expand, remove := Kept(current, other, dir), Removed(current, other, dir);
    var span := AxisSpan(t, current, d) + AxisSpan(t, other, d);
    MergedKept(t, remove, expand, IsHorizontal(d), span);
    Outcome(Merged(t, remove, expand, IsHorizontal(d), span), expand)
  }

  /**
   * The kept cell: the current one for `right`/`down`, the other for `left`/`up`; it holds the
   * merged content, and a horizontal merge never empties the removed cell's row.
   */
  lemma ExecutionKeptCell(t: Table, current: Addr, d: Direction, lang: ContentDirection)
    requires ValidAddr(t, current) && MergeableCell(t, InCell(current), d, lang).Some?
    ensures var other := MergeableCell(t, InCell(current), d, lang).value;
      var dir := Localized(d, lang);
      var o := Execution(t, current, d, lang);
      && ValidAddr(t, other)
      && o.kept == (if dir == Right || dir == Down then current else other)
      && CellAt(o.table, o.kept).content ==
         MergedContent(CellAt(t, Kept(current, other, dir)), CellAt(t, Removed(current, other, dir)))
      && (IsHorizontal(d) ==> !AloneInRow(t, Removed(current, other, dir)))
  {
    var other := MergeableCell(t, InCell(current), d, lang).value;
    var dir := Localized(d, lang);
    ExecutionMerges(t, current, d, lang);
    MergeOrder(t, current, d, lang);
    LocalizedInvolution(d, lang);
    MergedPair(t, current, other, d, dir, Execution(t, current, d, lang).table);
  }

  /**
   * The kept cell's span along the merge axis is the sum of both cells' (one less when the
   * emptied row is deleted), and its span across the axis is the one both cells share.
   */
  lemma ExecutionKeptSpans(t: Table, current: Addr, d: Direction, lang: ContentDirection)
    requires ValidAddr(t, current) && MergeableCell(t, InCell(current), d, lang).Some?
    ensures var other := MergeableCell(t, InCell(current), d, lang).value;
      var dir := Localized(d, lang);
      var o := Execution(t, current, d, lang);
      && ValidAddr(t, other)
      && AxisSpan(o.table, o.kept, d) ==
         AxisSpan(t, current, d) + AxisSpan(t, other, d) - (if AloneInRow(t, Removed(current, other, dir)) then 1 else 0)
      && CrossSpan(o.table, o.kept, d) == CrossSpan(t, current, d) == CrossSpan(t, other, d)
  {
    var other := MergeableCell(t, InCell(current), d, lang).value;
    var dir := Localized(d, lang);
    ExecutionMerges(t, current, d, lang);
    MergeOrder(t, current, d, lang);
    LocalizedInvolution(d, lang);
    MergedPair(t, current, other, d, dir, Execution(t, current, d, lang).table);
  }

  /**
   * `ExecutionKeptCell` for any current and other cell in merge order: which one is kept, its
   * content, and its spans along and across the merge axis.
   */
  lemma MergedPair(t: Table, current: Addr, other: Addr, d: Direction, dir: Direction, m: Table)
    requires ValidAddr(t, current) && ValidAddr(t, other) && IsHorizontal(dir) == IsHorizontal(d)
    requires Before(Kept(current, other, dir), Removed(current, other, dir))
    requires IsHorizontal(d) ==>
      Removed(current, other, dir).row == Kept(current, other, dir).row &&
      Removed(current, other, dir).index == Kept(current, other, dir).index + 1
    requires !IsHorizontal(d) ==>
      Removed(current, other, dir).row == Kept(current, other, dir).row + Span(CellAt(t, Kept(current, other, dir)).rowspan)
    requires CrossSpan(t, other, d) == CrossSpan(t, current, d)
    requires m == Merged(t, Removed(current, other, dir), Kept(current, other, dir), IsHorizontal(d),
      AxisSpan(t, current, d) + AxisSpan(t, other, d))
    ensures Kept(current, other, dir) == (if dir == Right || dir == Down then current else other)
    ensures ValidAddr(m, Kept(current, other, dir))
    ensures CellAt(m, Kept(current, other, dir)).content ==
      MergedContent(CellAt(t, Kept(current, other, dir)), CellAt(t, Removed(current, other, dir)))
    ensures IsHorizontal(d) ==> !AloneInRow(t, Removed(current, other, dir))
    ensures AxisSpan(m, Kept(current, other, dir), d) ==
      AxisSpan(t, current, d) + AxisSpan(t, other, d) - (if AloneInRow(t, Removed(current, other, dir)) then 1 else 0)
    ensures CrossSpan(m, Kept(current, other, dir), d) == CrossSpan(t, current, d)
  {
    var k, r := Kept(current, other, dir), Removed(current, other, dir);
    var span := AxisSpan(t, current, d) + AxisSpan(t, other, d);
    assert span == AxisSpan(t, k, d) + AxisSpan(t, r, d);
    MergedAxis(t, r, k, d, span, m);
  }

  /** `MergedKept` in terms of the spans along and across the merge axis. */
  lemma MergedAxis(t: Table, remove: Addr, expand: Addr, d: Direction, span: nat, m: Table)
    requires ValidAddr(t, remove) && ValidAddr(t, expand) && Before(expand, remove)
    requires IsHorizontal(d) ==> remove.row == expand.row
    requires !IsHorizontal(d) ==> remove.row == expand.row + Span(CellAt(t, expand).rowspan)
    requires span == AxisSpan(t, expand, d) + AxisSpan(t, remove, d)
    requires m == Merged(t, remove, expand, IsHorizontal(d), span)
    ensures ValidAddr(m, expand)
    ensures CellAt(m, expand).content == MergedContent(CellAt(t, expand), CellAt(t, remove))
    ensures IsHorizontal(d) ==> !AloneInRow(t, remove)
    ensures AxisSpan(m, expand, d) == span - (if AloneInRow(t, remove) then 1 else 0)
    ensures CrossSpan(m, expand, d) == CrossSpan(t, expand, d)
  {
    MergedKept(t, remove, expand, IsHorizontal(d), span);
  }

  /** One cell fewer; one row fewer exactly when the removed cell was alone in its row. */
  lemma ExecutionCounts(t: Table, current: Addr, d: Direction, lang: ContentDirection)
    requires ValidAddr(t, current) && MergeableCell(t, InCell(current), d, lang).Some?
    ensures var other := MergeableCell(t, InCell(current), d, lang).value;
      var remove := Removed(current, other, Localized(d, lang));
      var o := Execution(t, current, d, lang);
      && ValidAddr(t, remove)
      && CellCount(o.table) + 1 == CellCount(t)
      && |o.table.rows| + (if AloneInRow(t, remove) then 1 else 0) == |t.rows|
      && o.table.headingRows == t.headingRows && o.table.headingColumns == t.headingColumns
  {
    MergeOrder(t, current, d, lang);
    var other := MergeableCell(t, InCell(current), d, lang).value;
    var dir := Localized(d, lang);
    MergedCounts(t, Removed(current, other, dir), Kept(current, other, dir), IsHorizontal(d),
      AxisSpan(t, current, d) + AxisSpan(t, other, d));
  }

  /** `execute()` spelled out: the merge of the kept and the removed cell with the summed span. */
  lemma ExecutionMerges(t: Table, current: Addr, d: Direction, lang: ContentDirection)
    requires ValidAddr(t, current) && MergeableCell(t, InCell(current), d, lang).Some?
    ensures var other := MergeableCell(t, InCell(current), d, lang).value;
      var dir := Localized(d, lang);
      var remove, expand := Removed(current, other, dir), Kept(current, other, dir);
      && ValidAddr(t, remove) && ValidAddr(t, expand) && Before(expand, remove)
      && Execution(t, current, d, lang) ==
         Outcome(Merged(t, remove, expand, IsHorizontal(d), AxisSpan(t, current, d) + AxisSpan(t, other, d)), expand)
  {
    MergeOrder(t, current, d, lang);
  }

  /**
   * The body of `execute()` for the current cell and the value `refresh()` found: merge into
   * the kept cell with the summed span, delete an emptied row, select the kept cell.
   */
  method MergeInto(doc: Document, tableCell: Addr, cellToMerge: Addr, direction: Direction)
    requires ValidAddr(doc.table, tableCell)
    requires MergeableCell(doc.table, InCell(tableCell), direction, doc.direction) == Some(cellToMerge)
    modifies doc
    ensures var o := Execution(old(doc.table), tableCell, direction, doc.direction);
      doc.table == o.table && doc.selection == SelectionIn(o.table, o.kept)
  {
    var dir := Localized(direction, doc.direction);
    ExecutionMerges(doc.table, tableCell, direction, doc.direction);
    var isMergeNext := dir == Right || dir == Down;
    var cellToExpand := if isMergeNext then tableCell else cellToMerge;
    var cellToRemove := if isMergeNext then cellToMerge else tableCell;
    var cellSpan := AxisSpan(doc.table, tableCell, direction);
    var cellToMergeSpan := AxisSpan(doc.table, cellToMerge, direction);
    MergeWithSpan(doc, cellToRemove, cellToExpand, direction == Right || direction == Left, cellSpan + cellToMergeSpan);
    doc.selection := SelectionIn(doc.table, cellToExpand);
  }

  // ----- The command ---------------------------------------------------------------------

  /** `MergeCellCommand`: its direction, and the `isEnabled`/`value` fields `refresh()` sets. */
  class MergeCellCommand {
    const doc: Document
    const direction: Direction
    const isHorizontal: bool := direction == Right || direction == Left
    var isEnabled: bool
    var value: Option<Addr>

    constructor (doc: Document, direction: Direction)
      ensures this.doc == doc && this.direction == direction
      ensures isHorizontal == IsHorizontal(direction)
      ensures !isEnabled && value.None?
    {
      this.doc := doc;
      this.direction := direction;
      isEnabled := false;
      value := None;
    }

    /** `refresh()`: enabled exactly when there is a mergeable cell, which becomes the value. */
    method Refresh()
      requires doc.Valid()
      modifies this
      ensures value == MergeableCell(doc.table, doc.selection.first, direction, doc.direction)
      ensures isEnabled <==> value.Some?
    {
      var cellToMerge := MergeableCell(doc.table, doc.selection.first, direction, doc.direction);
      isEnabled := cellToMerge.Some?;
      value := cellToMerge;
    }

    /**
     * `execute()`, run only while enabled with the value `refresh()` left: merge into the kept
     * cell, set its span, delete an emptied row and select the kept cell's content.
     */
    method Execute()
      requires doc.Valid()
      requires value == MergeableCell(doc.table, doc.selection.first, direction, doc.direction) && value.Some?
      modifies doc
      ensures old(doc.selection.first).InCell?
      ensures var o := Execution(old(doc.table), old(doc.selection.first).cell, direction, doc.direction);
        doc.table == o.table && doc.selection == SelectionIn(o.table, o.kept)
      ensures doc.Valid()
    {
      var tableCell := doc.selection.first.cell;
      MergeInto(doc, tableCell, value.value, direction);
      assert Within(doc.table, doc.selection);
    }
  }
}
