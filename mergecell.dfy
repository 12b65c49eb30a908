/**
 * The merge cell command (`mergeTableCellRight`, `...Left`, `...Up`, `...Down`): which cell
 * the current one can merge with, and the merge itself, which keeps the upper or left cell,
 * sums the spans along the merge axis, moves the content and deletes a row left empty.
 */
module MergeCell {
  import opened Wrappers
  import opened TableModel
  import opened TableWalker
  import opened WalkerProperties
  import opened CellLocation
  import opened Editor

  datatype Direction = Left | Right | Up | Down

  /** `isHorizontal`: the merge is along a row. */
  predicate IsHorizontal(d: Direction) {
    d == Left || d == Right
  }

  /** `_localizedDirection`: in right-to-left content, left and right trade places. */
  function Localized(d: Direction, lang: ContentDirection): (r: Direction)
    ensures lang == Ltr ==> r == d
    ensures lang == Rtl && d == Left ==> r == Right
    ensures lang == Rtl && d == Right ==> r == Left
    ensures !IsHorizontal(d) ==> r == d
  {
    if lang == Rtl && d == Right then Left
    else if lang == Rtl && d == Left then Right
    else d
  }

  /** Localizing twice gives the direction back, and the merge axis never changes. */
  lemma LocalizedInvolution(d: Direction, lang: ContentDirection)
    ensures Localized(Localized(d, lang), lang) == d
    ensures IsHorizontal(Localized(d, lang)) == IsHorizontal(d)
  {
  }

  // ----- Horizontal neighbours -----------------------------------------------------------

  /** `nextSibling` for `right`, `previousSibling` for `left`. */
  function Sibling(t: Table, a: Addr, d: Direction): (r: Option<Addr>)
    requires ValidAddr(t, a) && IsHorizontal(d)
    ensures r.Some? ==> ValidAddr(t, r.value) && r.value.row == a.row
    ensures r.Some? && d == Right ==> r.value.index == a.index + 1
    ensures r.Some? && d == Left ==> r.value.index + 1 == a.index
    ensures r.None? <==> (if d == Right then a.index + 1 == |t.rows[a.row]| else a.index == 0)
  {
    if d == Right then
      (if a.index + 1 < |t.rows[a.row]| then Some(Addr(a.row, a.index + 1)) else None)
    else
      (if a.index > 0 then Some(Addr(a.row, a.index - 1)) else None)
  }

  /** The left cell ends exactly where its right neighbour starts: nothing from above is between them. */
  predicate Touching(t: Table, left: Addr)
    requires ValidAddr(t, left) && left.index + 1 < |t.rows[left.row]|
  {
    LocationOf(t, left);
    LocationOf(t, Addr(left.row, left.index + 1));
    var l, r := Location(t, left).value, Location(t, Addr(left.row, left.index + 1)).value;
    l.column + l.colspan == r.column
  }

  /** `getHorizontalCell`: the storage sibling, if the two cells touch. */
  function HorizontalCell(t: Table, a: Addr, d: Direction): (r: Option<Addr>)
    requires ValidAddr(t, a) && IsHorizontal(d)
    ensures r.Some? ==> r == Sibling(t, a, d)
    ensures r.Some? <==>
      (Sibling(t, a, d).Some? && Touching(t, if d == Right then a else Sibling(t, a, d).value))
  {
    match Sibling(t, a, d)
    case None => None
    case Some(s) =>
      var left := if d == Right then a else s;
      var right := if d == Right then s else a;
      LocationOf(t, left);
      LocationOf(t, right);
      var leftColumn := Location(t, left).value.column;
      var rightColumn := Location(t, right).value.column;
      var leftSpan := Span(CellAt(t, left).colspan);
      if leftColumn + leftSpan == rightColumn then Some(s) else None
  }

  /** Merging right from `a` finds `b` exactly when merging left from `b` finds `a`. */
  lemma HorizontalInverse(t: Table, a: Addr, b: Addr)
    requires ValidAddr(t, a) && ValidAddr(t, b)
    ensures HorizontalCell(t, a, Right) == Some(b) <==> HorizontalCell(t, b, Left) == Some(a)
  {
  }

  /**
   * A sibling that is refused is separated from the cell by columns that cells from rows above
   * reach into ("there are rowspanned cells between them").
   */
  lemma HorizontalRefused(t: Table, a: Addr, d: Direction)
    requires ValidAddr(t, a) && IsHorizontal(d)
    requires Sibling(t, a, d).Some? && HorizontalCell(t, a, d).None?
    ensures var left := if d == Right then a else Sibling(t, a, d).value;
      Location(t, left).Some? && Location(t, Addr(left.row, left.index + 1)).Some?
    ensures var left := if d == Right then a else Sibling(t, a, d).value;
      var l, r := Location(t, left).value, Location(t, Addr(left.row, left.index + 1)).value;
      && l.column + l.colspan < r.column
      && forall x :: l.column + l.colspan <= x < r.column ==> CoveredBy(Walk(t, 0, 0, Corrected).values, a.row, x)
  {
    var left := if d == Right then a else Sibling(t, a, d).value;
    SiblingColumns(t, left);
  }

  // ----- Vertical neighbours -------------------------------------------------------------

  /** The merge would leave the table: `down` from the last row, `up` from row 0. */
  predicate LeavesTable(t: Table, a: Addr, d: Direction) {
    (d == Down && a.row + 1 == |t.rows|) || (d == Up && a.row == 0)
  }

  /** The merge would cross from the heading rows into the body or back. */
  predicate CrossesHeading(t: Table, a: Addr, d: Direction)
    requires ValidAddr(t, a)
  {
    var headingRows := HeadingRowsOf(t);
    && headingRows != 0
    && ((d == Down && a.row + Span(CellAt(t, a).rowspan) == headingRows) || (d == Up && a.row == headingRows))
  }

  /** `rowOfCellToMerge`: the row below the cell's last one for `down`, its own row for `up`. */
  function MergeRow(t: Table, a: Addr, d: Direction): (r: nat)
    requires ValidAddr(t, a)
    ensures d == Down ==> r > a.row && r == a.row + Span(CellAt(t, a).rowspan)
    ensures d != Down ==> r == a.row
  {
    if d == Down then a.row + Span(CellAt(t, a).rowspan) else a.row
  }

  /** The `find` callback of `getVerticalCell`. */
  predicate IsTarget(v: WalkerValue, mergeColumn: nat, d: Direction, mergeRow: nat) {
    v.column == mergeColumn && (if d == Down then v.row == mergeRow else mergeRow == v.row + v.rowspan)
  }

  /** `tableMap.find( ... )`, as an index. */
  function FindTarget(w: seq<WalkerValue>, mergeColumn: nat, d: Direction, mergeRow: nat): (r: Option<nat>)
    ensures r.Some? ==> r.value < |w| && IsTarget(w[r.value], mergeColumn, d, mergeRow)
    ensures r.Some? ==> forall j :: 0 <= j < r.value ==> !IsTarget(w[j], mergeColumn, d, mergeRow)
    ensures r.None? ==> forall j :: 0 <= j < |w| ==> !IsTarget(w[j], mergeColumn, d, mergeRow)
  {
    if w == [] then None
    else if IsTarget(w[0], mergeColumn, d, mergeRow) then Some(0)
    else match FindTarget(w[1..], mergeColumn, d, mergeRow)
      case None => None
      case Some(i) => Some(i + 1)
  }

  /**
   * `getVerticalCell`: walk the rows up to `rowOfCellToMerge` and take the first cell in the
   * current cell's column that starts right below it (`down`) or ends right above it (`up`).
   */
  function VerticalCell(t: Table, a: Addr, d: Direction): (r: Option<Addr>)
    requires ValidAddr(t, a) && !IsHorizontal(d)
    ensures LeavesTable(t, a, d) || CrossesHeading(t, a, d) ==> r.None?
    ensures r.Some? ==> ValidAddr(t, r.value)
  {
    if LeavesTable(t, a, d) || CrossesHeading(t, a, d) then None
    else
      var mergeRow := MergeRow(t, a, d);
      var w := Walk(t, 0, mergeRow, Corrected).values;
      InRangedWalk(t, 0, mergeRow, a);
      WalkValues(t, 0, mergeRow, Corrected);
      var mergeColumn := w[IndexOf(w, a).value].column;
      match FindTarget(w, mergeColumn, d, mergeRow)
      case None => None
      case Some(k) => Some(AddrOf(w[k]))
  }

  /**
   * The vertical target is in the same visual column, and starts right below the current
   * cell (`down`) or ends right above it (`up`).
   */
  lemma VerticalTarget(t: Table, a: Addr, d: Direction)
    requires ValidAddr(t, a) && !IsHorizontal(d) && VerticalCell(t, a, d).Some?
    ensures var b := VerticalCell(t, a, d).value;
      && ValidAddr(t, b) && !LeavesTable(t, a, d) && !CrossesHeading(t, a, d)
      && Location(t, b).Some? && Location(t, a).Some?
      && Location(t, b).value.column == Location(t, a).value.column
      && (d == Down ==> b.row == a.row + Span(CellAt(t, a).rowspan))
      && (d == Up ==> b.row + Span(CellAt(t, b).rowspan) == a.row)
  {
    var mergeRow := MergeRow(t, a, d);
    var w := Walk(t, 0, mergeRow, Corrected).values;
    InRangedWalk(t, 0, mergeRow, a);
    WalkValues(t, 0, mergeRow, Corrected);
    var i := IndexOf(w, a).value;
    var k := FindTarget(w, w[i].column, d, mergeRow).value;
    RangedValueIsLocation(t, 0, mergeRow, w[i]);
    RangedValueIsLocation(t, 0, mergeRow, w[k]);
  }

  /**
   * Conversely, when the merge stays inside the table and its section, a stored cell in the
   * current cell's column that starts right below it (`down`) or ends right above it (`up`)
   * means a target is found.
   */
  lemma VerticalFound(t: Table, a: Addr, d: Direction, b: Addr)
    requires ValidAddr(t, a) && ValidAddr(t, b) && !IsHorizontal(d)
    requires !LeavesTable(t, a, d) && !CrossesHeading(t, a, d)
    requires Location(t, a).Some? && Location(t, b).Some?
    requires Location(t, b).value.column == Location(t, a).value.column
    requires d == Down ==> b.row == a.row + Span(CellAt(t, a).rowspan)
    requires d == Up ==> b.row + Span(CellAt(t, b).rowspan) == a.row
    ensures VerticalCell(t, a, d).Some?
  {
    var mergeRow := MergeRow(t, a, d);
    var w := Walk(t, 0, mergeRow, Corrected).values;
    InRangedWalk(t, 0, mergeRow, a);
    InRangedWalk(t, 0, mergeRow, b);
    WalkValues(t, 0, mergeRow, Corrected);
    var i := IndexOf(w, a).value;
    var j := IndexOf(w, b).value;
    RangedValueIsLocation(t, 0, mergeRow, w[i]);
    RangedValueIsLocation(t, 0, mergeRow, w[j]);
    assert IsTarget(w[j], w[i].column, d, mergeRow);
  }

  // ----- The mergeable cell --------------------------------------------------------------

  /** The span across the merge axis: `rowspan` for a horizontal merge, `colspan` for a vertical one. */
  function CrossSpan(t: Table, a: Addr, d: Direction): nat
    requires ValidAddr(t, a)
  {
    if IsHorizontal(d) then Span(CellAt(t, a).rowspan) else Span(CellAt(t, a).colspan)
  }

  /** The span along the merge axis: `colspan` for a horizontal merge, `rowspan` for a vertical one. */
  function AxisSpan(t: Table, a: Addr, d: Direction): nat
    requires ValidAddr(t, a)
  {
    if IsHorizontal(d) then Span(CellAt(t, a).colspan) else Span(CellAt(t, a).rowspan)
  }

  /**
   * `_getMergeableCell`: nothing outside a cell; otherwise the neighbour in the localized
   * direction, if its span across the merge axis equals the current cell's.
   */
  function MergeableCell(t: Table, p: Position, d: Direction, lang: ContentDirection): (r: Option<Addr>)
    requires p.InCell? ==> ValidAddr(t, p.cell)
    ensures !p.InCell? ==> r.None?
    ensures r.Some? ==> ValidAddr(t, r.value) && CrossSpan(t, r.value, d) == CrossSpan(t, p.cell, d)
    ensures r.Some? ==> r == (if IsHorizontal(d) then HorizontalCell(t, p.cell, Localized(d, lang))
                              else VerticalCell(t, p.cell, d))
  {
    if !p.InCell? then None
    else
      var direction := Localized(d, lang);
      var cellToMerge :=
        if IsHorizontal(d) then HorizontalCell(t, p.cell, direction) else VerticalCell(t, p.cell, direction);
      match cellToMerge
      case None => None
      case Some(c) =>
        if CrossSpan(t, c, d) == CrossSpan(t, p.cell, d) then Some(c) else None
  }

  /** Where the merge cannot find or accept a neighbour, the command is disabled. */
  lemma MergeableRefusals(t: Table, p: Position, d: Direction, lang: ContentDirection)
    requires p.InCell? ==> ValidAddr(t, p.cell)
    ensures p.InCell? && IsHorizontal(d) && Sibling(t, p.cell, Localized(d, lang)).None?
      ==> MergeableCell(t, p, d, lang).None?
    ensures p.InCell? && !IsHorizontal(d) && (LeavesTable(t, p.cell, d) || CrossesHeading(t, p.cell, d))
      ==> MergeableCell(t, p, d, lang).None?
    ensures p.InCell? && IsHorizontal(d) && HorizontalCell(t, p.cell, Localized(d, lang)).Some?
      ==> (MergeableCell(t, p, d, lang).Some? <==>
           CrossSpan(t, HorizontalCell(t, p.cell, Localized(d, lang)).value, d) == CrossSpan(t, p.cell, d))
    ensures p.InCell? && !IsHorizontal(d) && VerticalCell(t, p.cell, d).Some?
      ==> (MergeableCell(t, p, d, lang).Some? <==>
           CrossSpan(t, VerticalCell(t, p.cell, d).value, d) == CrossSpan(t, p.cell, d))
  {
  }
}
