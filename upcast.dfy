/**
 * The upcast of a view `<table>` into a model `table`: `scanTable` sorts the rows (the rows of
 * the first `<thead>` first) and counts the heading rows and columns, `upcastTableRows`
 * converts the rows in that order, and zero heading counts are not stored.
 */
module Upcast {
  import opened Wrappers
  import opened TableModel
  import opened View

  // ----- scanRowForHeadingColumns ---------------------------------------------------------

  predicate IsCellElement(c: ViewCell) {
    c.name == "th" || c.name == "td"
  }

  /** `Array.from( tr.getChildren() ).filter(...)`: the `th` and `td` children, in order. */
  function Filtered(cs: seq<ViewCell>): (r: seq<ViewCell>)
    ensures |r| <= |cs|
    ensures forall k :: 0 <= k < |r| ==> IsCellElement(r[k])
  {
    if cs == [] then []
    else (if IsCellElement(cs[0]) then [cs[0]] else []) + Filtered(cs[1..])
  }

  /** `td.hasAttribute( 'colspan' ) ? parseInt(...) : 1`. */
  function ColspanOf(c: ViewCell): int {
    if c.colspan.Some? then c.colspan.value else 1
  }

  /** The sum of the colspans of the leading run of `th`. */
  function LeadingHeadings(cs: seq<ViewCell>): int {
    if cs == [] || cs[0].name != "th" then 0 else ColspanOf(cs[0]) + LeadingHeadings(cs[1..])
  }

  /** What `scanRowForHeadingColumns` returns for a row with these children. */
  function RowHeadingColumns(children: seq<ViewCell>): int {
    LeadingHeadings(Filtered(children))
  }

  /** `scanRowForHeadingColumns`: the filter, then the `while` loop over the leading `th`. */
  method ScanRowForHeadingColumns(tr: ViewRow) returns (headingCols: int)
    ensures headingCols == RowHeadingColumns(tr.children)
  {
    headingCols := 0;
    var index := 0;
    var children := Filtered(tr.children);
    while index < |children| && children[index].name == "th"
      invariant 0 <= index <= |children|
      invariant headingCols + LeadingHeadings(children[index..]) == LeadingHeadings(children)
    {
      var td := children[index];
      var colspan := if td.colspan.Some? then td.colspan.value else 1;
      assert children[index..][1..] == children[index + 1..];
      headingCols := headingCols + colspan;
      index := index + 1;
    }
  }

  lemma {:induction false} FilteredConcat(a: seq<ViewCell>, b: seq<ViewCell>)
    ensures Filtered(a + b) == Filtered(a) + Filtered(b)
  {
    if a == [] {
      assert a + b == b;
    } else {
      assert (a + b)[1..] == a[1..] + b;
      FilteredConcat(a[1..], b);
    }
  }

  /** Children that are neither `th` nor `td` (text nodes, comments…) do not count, wherever they are. */
  lemma ScanIgnoresOthers(before: seq<ViewCell>, other: ViewCell, after: seq<ViewCell>)
    requires !IsCellElement(other)
    ensures RowHeadingColumns(before + [other] + after) == RowHeadingColumns(before + after)
  {
    FilteredConcat(before + [other], after);
    FilteredConcat(before, [other]);
    FilteredConcat(before, after);
    assert [other][1..] == [];
    assert Filtered([other]) == [];
    assert Filtered(before + [other]) == Filtered(before);
  }

  lemma {:induction false} LeadingStopsAtTd(a: seq<ViewCell>, td: ViewCell, b: seq<ViewCell>)
    requires td.name == "td"
    ensures LeadingHeadings(a + [td] + b) == LeadingHeadings(a + [td])
  {
    if a == [] {
      assert (a + [td] + b)[0] == td;
    } else if a[0].name == "th" {
      assert (a + [td] + b)[1..] == a[1..] + [td] + b;
      assert (a + [td])[1..] == a[1..] + [td];
      LeadingStopsAtTd(a[1..], td, b);
    }
  }

  /** The scan stops at the first `td`: what follows it does not count. */
  lemma ScanStopsAtTd(before: seq<ViewCell>, td: ViewCell, after: seq<ViewCell>)
    requires td.name == "td"
    ensures RowHeadingColumns(before + [td] + after) == RowHeadingColumns(before + [td])
  {
    FilteredConcat(before + [td], after);
    FilteredConcat(before, [td]);
    assert [td][1..] == [];
    assert Filtered([td]) == [td];
    LeadingStopsAtTd(Filtered(before), td, Filtered(after));
  }

  /** A row of `th` without `colspan` has as many heading columns as cells: a missing colspan is 1. */
  lemma {:induction false} ScanCountsHeadings(cs: seq<ViewCell>)
    requires forall k :: 0 <= k < |cs| ==> cs[k].name == "th" && cs[k].colspan.None?
    ensures RowHeadingColumns(cs) == |cs|
  {
    if cs != [] {
      ScanCountsHeadings(cs[1..]);
      FilteredConcat([cs[0]], cs[1..]);
      assert [cs[0]] + cs[1..] == cs;
      assert Filtered([cs[0]]) == [cs[0]];
      assert ([cs[0]] + Filtered(cs[1..]))[1..] == Filtered(cs[1..]);
    }
  }

  // ----- scanTable -----------------------------------------------------------------------

  /** Only `<thead>`, `<tbody>` and `<tfoot>` children of the table hold rows. */
  predicate HoldsRows(name: string) {
    name == "tbody" || name == "thead" || name == "tfoot"
  }

  /** The index of the first `<thead>` child, if any. */
  function FirstThead(cs: seq<ViewSection>): (r: Option<nat>)
    ensures r.Some? ==> r.value < |cs| && cs[r.value].name == "thead"
  {
    if cs == [] then None
    else match FirstThead(cs[..|cs| - 1])
      case Some(k) => Some(k)
      case None => if cs[|cs| - 1].name == "thead" then Some(|cs| - 1) else None
  }

  /** The rows a section adds to the body rows: all of them, unless it is the first `<thead>`. */
  function BodyPart(s: ViewSection, i: nat, first: Option<nat>): seq<ViewRow> {
    if HoldsRows(s.name) && first != Some(i) then s.rows else []
  }

  /** The body rows, in document order: the rows of every row-holding section but the first `<thead>`. */
  function BodyRows(cs: seq<ViewSection>, first: Option<nat>): seq<ViewRow> {
    if cs == [] then [] else BodyRows(cs[..|cs| - 1], first) + BodyPart(cs[|cs| - 1], |cs| - 1, first)
  }

  /** The head rows: the rows of the first `<thead>`. */
  function HeadRows(cs: seq<ViewSection>): seq<ViewRow> {
    match FirstThead(cs)
    case Some(k) => cs[k].rows
    case None => []
  }

  /** The largest `scanRowForHeadingColumns` over the rows, starting from 0. */
  function MaxHeadingColumns(rows: seq<ViewRow>): (r: int)
    ensures r >= 0
  {
    if rows == [] then 0
    else
      var m := MaxHeadingColumns(rows[..|rows| - 1]);
      var h := RowHeadingColumns(rows[|rows| - 1].children);
      if h > m then h else m
  }

  /** The maximum bounds every row's heading columns and is one of them, unless it is the initial 0. */
  lemma {:induction false} MaxHeadingColumnsIsMax(rows: seq<ViewRow>)
    ensures forall k :: 0 <= k < |rows| ==> RowHeadingColumns(rows[k].children) <= MaxHeadingColumns(rows)
    ensures MaxHeadingColumns(rows) == 0 ||
      exists k :: 0 <= k < |rows| && RowHeadingColumns(rows[k].children) == MaxHeadingColumns(rows)
  {
    if rows != [] {
      var n := |rows| - 1;
      MaxHeadingColumnsIsMax(rows[..n]);
      assert forall k :: 0 <= k < n ==> rows[..n][k] == rows[k];
    }
  }

  /** The scanned table: heading row and column counts, and the rows in model order. */
  datatype TableMeta = TableMeta(headingRows: nat, headingColumns: nat, rows: seq<ViewRow>)

  /** `scanTable` as a function of the table's children. */
  function Scanned(v: ViewTable): TableMeta {
    var body := BodyRows(v.children, FirstThead(v.children));
    TableMeta(|HeadRows(v.children)|, MaxHeadingColumns(body), HeadRows(v.children) + body)
  }

  /** No child before the first `<thead>` is a `<thead>`, and with none found there is none. */
  lemma {:induction false} FirstTheadIsFirst(cs: seq<ViewSection>, j: nat)
    requires j < |cs| && cs[j].name == "thead"
    ensures FirstThead(cs).Some? && FirstThead(cs).value <= j
  {
    var n := |cs| - 1;
    assert forall k :: 0 <= k < n ==> cs[..n][k] == cs[k];
    if j < n {
      FirstTheadIsFirst(cs[..n], j);
    }
  }

  /** The first `<thead>` of a prefix is the first of the whole; without one, the first comes later. */
  lemma {:induction false} FirstTheadExtend(cs: seq<ViewSection>, n: nat)
    requires n <= |cs|
    ensures FirstThead(cs[..n]).Some? ==> FirstThead(cs) == FirstThead(cs[..n])
    ensures FirstThead(cs[..n]).None? && FirstThead(cs).Some? ==> FirstThead(cs).value >= n
    decreases |cs| - n
  {
    if n == |cs| {
      assert cs[..n] == cs;
    } else {
      var m := |cs| - 1;
      assert cs[..m][..n] == cs[..n];
      FirstTheadExtend(cs[..m], n);
    }
  }

  lemma FirstTheadPrefix(cs: seq<ViewSection>, i: nat)
    requires i < |cs|
    ensures FirstThead(cs[..i + 1]) == Some(i) <==> FirstThead(cs) == Some(i)
    ensures FirstThead(cs[..i]).Some? ==> FirstThead(cs) == FirstThead(cs[..i])
    ensures FirstThead(cs[..i + 1]) == (if FirstThead(cs[..i]).None? && cs[i].name == "thead" then Some(i) else FirstThead(cs[..i]))
  {
    FirstTheadExtend(cs, i + 1);
    FirstTheadExtend(cs, i);
    assert cs[..i + 1][..i] == cs[..i];
  }

  lemma BodyRowsSnoc(cs: seq<ViewSection>, i: nat, first: Option<nat>)
    requires i < |cs|
    ensures BodyRows(cs[..i + 1], first) == BodyRows(cs[..i], first) + BodyPart(cs[i], i, first)
  {
    assert cs[..i + 1][..i] == cs[..i];
  }

  lemma MaxHeadingSnoc(rows: seq<ViewRow>, r: ViewRow)
    ensures MaxHeadingColumns(rows + [r]) ==
      if RowHeadingColumns(r.children) > MaxHeadingColumns(rows) then RowHeadingColumns(r.children)
      else MaxHeadingColumns(rows)
  {
    assert (rows + [r])[..|rows|] == rows;
  }

  /**
   * The inner loop of `scanTable` over one section's rows: a row of the first `<thead>` is a
   * head row; any other row is a body row whose heading columns may raise the maximum.
   */
  method ScanSectionRows(rows: seq<ViewRow>, isHead: bool,
                         headRows0: seq<ViewRow>, bodyRows0: seq<ViewRow>, headingRows0: nat, headingColumns0: int)
    returns (headRows: seq<ViewRow>, bodyRows: seq<ViewRow>, headingRows: nat, headingColumns: int)
    requires headingRows0 == |headRows0| && headingColumns0 == MaxHeadingColumns(bodyRows0)
    ensures isHead ==> headRows == headRows0 + rows && bodyRows == bodyRows0
    ensures !isHead ==> headRows == headRows0 && bodyRows == bodyRows0 + rows
    ensures headingRows == |headRows| && headingColumns == MaxHeadingColumns(bodyRows)
  {
    headRows, bodyRows, headingRows, headingColumns := headRows0, bodyRows0, headingRows0, headingColumns0;
    for j := 0 to |rows|
      invariant isHead ==> headRows == headRows0 + rows[..j] && bodyRows == bodyRows0
      invariant !isHead ==> headRows == headRows0 && bodyRows == bodyRows0 + rows[..j]
      invariant headingRows == |headRows| && headingColumns == MaxHeadingColumns(bodyRows)
    {
      var tr := rows[j];
      assert rows[..j + 1] == rows[..j] + [tr];
      if isHead {
        headingRows := headingRows + 1;
        headRows := headRows + [tr];
      } else {
        MaxHeadingSnoc(bodyRows, tr);
        bodyRows := bodyRows + [tr];
        var headingCols := ScanRowForHeadingColumns(tr);
        if headingCols > headingColumns {
          headingColumns := headingCols;
        }
      }
    }
    assert rows[..|rows|] == rows;
  }

  /**
   * `scanTable`: the loop over the table's children, and over each row-holding section's rows,
   * that pushes head and body rows and keeps the counters.
   */
  method ScanTable(viewTable: ViewTable) returns (meta: TableMeta)
    ensures meta == Scanned(viewTable)
  {
    var cs := viewTable.children;
    var headingRows: nat, headingColumns: int := 0, 0;
    var headRows: seq<ViewRow> := [];
    var bodyRows: seq<ViewRow> := [];
    var firstThead: Option<nat> := None;
    for i := 0 to |cs|
      invariant firstThead == FirstThead(cs[..i])
      invariant headRows == (if firstThead.Some? then cs[firstThead.value].rows else [])
      invariant headingRows == |headRows|
      invariant bodyRows == BodyRows(cs[..i], FirstThead(cs))
      invariant headingColumns == MaxHeadingColumns(bodyRows)
    {
      var tableChild := cs[i];
      FirstTheadPrefix(cs, i);
      BodyRowsSnoc(cs, i, FirstThead(cs));
      assert cs[..i + 1][..i] == cs[..i];
      if tableChild.name == "tbody" || tableChild.name == "thead" || tableChild.name == "tfoot" {
        if tableChild.name == "thead" && firstThead.None? {
          firstThead := Some(i);
        }
        var isHead := tableChild.name == "thead" && firstThead == Some(i);
        headRows, bodyRows, headingRows, headingColumns :=
          ScanSectionRows(tableChild.rows, isHead, headRows, bodyRows, headingRows, headingColumns);
      }
    }
    assert cs[..|cs|] == cs;
    meta := TableMeta(headingRows, headingColumns, headRows + bodyRows);
  }

  // ----- The converted table ---------------------------------------------------------------

  /** `count || null`: a zero heading count is not stored; reading it back with `|| 0` gives the count. */
  function NonZero(n: nat): (r: Option<nat>)
    ensures r.None? <==> n == 0
    ensures r.GetOr(0) == n
  {
    if n == 0 then None else Some(n)
  }

  /** A `tableCell` with no attributes and no children, as `writer.insertElement( 'tableCell' )` makes it. */
  const EmptyCell: Cell := Cell(None, None, None, [], map[])

  /**
   * `upcastTableRows`: a model row per view row, in the given order, each converted by
   * `convertChildren`; with no rows at all, one row holding one empty cell.
   */
  method UpcastTableRows(viewRows: seq<ViewRow>, convertChildren: ViewRow -> Row) returns (rows: seq<Row>)
    ensures viewRows == [] ==> rows == [[EmptyCell]]
    ensures viewRows != [] ==> |rows| == |viewRows|
    ensures viewRows != [] ==> forall i :: 0 <= i < |rows| ==> rows[i] == convertChildren(viewRows[i])
  {
    rows := [];
    for i := 0 to |viewRows|
      invariant |rows| == i
      invariant forall k :: 0 <= k < i ==> rows[k] == convertChildren(viewRows[k])
    {
      rows := rows + [convertChildren(viewRows[i])];
    }
    if |viewRows| == 0 {
      rows := rows + [[EmptyCell]];
    }
  }

  /** The model table the converter creates for a view table. */
  function Upcasted(v: ViewTable, convertChildren: ViewRow -> Row): Table {
    var meta := Scanned(v);
    Table(
      if meta.rows == [] then [[EmptyCell]] else seq(|meta.rows|, i requires 0 <= i < |meta.rows| => convertChildren(meta.rows[i])),
      NonZero(meta.headingRows),
      NonZero(meta.headingColumns),
      map[])
  }

  /** The `element:table` converter: scan, create the table with its heading counts, convert the rows. */
  method UpcastTable(viewTable: ViewTable, convertChildren: ViewRow -> Row) returns (table: Table)
    ensures table == Upcasted(viewTable, convertChildren)
  {
    var meta := ScanTable(viewTable);
    var rows := UpcastTableRows(meta.rows, convertChildren);
    table := Table(rows, NonZero(meta.headingRows), NonZero(meta.headingColumns), map[]);
  }

  /** The rows of every row-holding child, in document order. */
  function AllowedRows(cs: seq<ViewSection>): seq<ViewRow> {
    if cs == [] then []
    else AllowedRows(cs[..|cs| - 1]) + (if HoldsRows(cs[|cs| - 1].name) then cs[|cs| - 1].rows else [])
  }

  lemma {:induction false} AllowedRowsConcat(a: seq<ViewSection>, b: seq<ViewSection>)
    ensures AllowedRows(a + b) == AllowedRows(a) + AllowedRows(b)
    decreases |b|
  {
    if b == [] {
      assert a + b == a;
    } else {
      var n := |b| - 1;
      assert (a + b)[..|a + b| - 1] == a + b[..n];
      AllowedRowsConcat(a, b[..n]);
    }
  }

  lemma {:induction false} BodyRowsNoThead(cs: seq<ViewSection>)
    ensures BodyRows(cs, None) == AllowedRows(cs)
  {
    if cs != [] {
      BodyRowsNoThead(cs[..|cs| - 1]);
    }
  }

  /** Before the first `<thead>`, the body rows are all the rows so far. */
  lemma {:induction false} BodyRowsBefore(cs: seq<ViewSection>, k: nat, n: nat)
    requires n <= k < |cs|
    ensures BodyRows(cs[..n], Some(k)) == AllowedRows(cs[..n])
  {
    if n > 0 {
      var p := cs[..n - 1];
      assert cs[..n][..n - 1] == p && cs[..n][n - 1] == cs[n - 1];
      BodyRowsBefore(cs, k, n - 1);
    }
  }

  /** After the first `<thead>`, the body rows are the rows around it. */
  lemma {:induction false} BodyRowsAfter(xs: seq<ViewSection>, k: nat)
    requires k < |xs|
    ensures BodyRows(xs, Some(k)) == AllowedRows(xs[..k]) + AllowedRows(xs[k + 1..])
  {
    var p := xs[..|xs| - 1];
    var part := BodyPart(xs[|xs| - 1], |xs| - 1, Some(k));
    var a := AllowedRows(xs[..k]);
    if |xs| == k + 1 {
      assert BodyRows(p, Some(k)) == a by {
        BodyRowsBefore(xs, k, k);
        assert p == xs[..k];
      }
      assert part == [] && AllowedRows(xs[k + 1..]) == [] by {
        assert xs[k + 1..] == [];
      }
    } else {
      var b := AllowedRows(p[k + 1..]);
      assert BodyRows(p, Some(k)) == a + b by {
        BodyRowsAfter(p, k);
        assert p[..k] == xs[..k];
      }
      assert AllowedRows(xs[k + 1..]) == b + part by {
        var q := xs[k + 1..];
        assert q[..|q| - 1] == p[k + 1..] && q[|q| - 1] == xs[|xs| - 1];
      }
      assert (a + b) + part == a + (b + part);
    }
  }

  /**
   * The rows come out as the first `<thead>`'s rows, then the rows of every other row-holding
   * child in document order (later `<thead>`s included); without a `<thead>`, all of them in
   * document order. Other children add nothing.
   */
  lemma ScannedRowOrder(v: ViewTable)
    ensures var cs := v.children;
      match FirstThead(cs)
      case Some(k) => Scanned(v).rows == cs[k].rows + AllowedRows(cs[..k]) + AllowedRows(cs[k + 1..])
      case None => Scanned(v).rows == AllowedRows(cs)
  {
    var cs := v.children;
    match FirstThead(cs)
    case Some(k) =>
      BodyRowsAfter(cs, k);
    case None =>
      BodyRowsNoThead(cs);
  }

  /**
   * Every row-holding child's rows are converted exactly once: the first `<thead>` is moved
   * in front, nothing is lost or repeated.
   */
  lemma ScannedRowsPermuted(v: ViewTable)
    ensures multiset(Scanned(v).rows) == multiset(AllowedRows(v.children))
  {
    var cs := v.children;
    ScannedRowOrder(v);
    match FirstThead(cs)
    case Some(k) =>
      var a, h, b := AllowedRows(cs[..k]), cs[k].rows, AllowedRows(cs[k + 1..]);
      assert AllowedRows(cs) == a + h + b by {
        assert cs == cs[..k] + [cs[k]] + cs[k + 1..];
        AllowedRowsConcat(cs[..k] + [cs[k]], cs[k + 1..]);
        AllowedRowsConcat(cs[..k], [cs[k]]);
        assert [cs[k]][..0] == [];
        assert AllowedRows([cs[k]]) == h;
      }
      assert multiset(h + a + b) == multiset(a + h + b);
    case None =>
  }

  /**
   * The heading rows are the rows of the first `<thead>` and the heading columns the largest
   * leading `th` run of a body row; a zero count is left unset.
   */
  lemma UpcastedHeadings(v: ViewTable, convertChildren: ViewRow -> Row)
    ensures var t := Upcasted(v, convertChildren);
      var body := BodyRows(v.children, FirstThead(v.children));
      && HeadingRowsOf(t) == (if FirstThead(v.children).Some? then |v.children[FirstThead(v.children).value].rows| else 0)
      && (t.headingRows.None? <==> HeadRows(v.children) == [])
      && (forall k :: 0 <= k < |body| ==> RowHeadingColumns(body[k].children) <= HeadingColumnsOf(t))
      && (t.headingColumns.Some? ==> exists k :: 0 <= k < |body| && RowHeadingColumns(body[k].children) == HeadingColumnsOf(t))
  {
    MaxHeadingColumnsIsMax(BodyRows(v.children, FirstThead(v.children)));
  }

  /** A table with no rows at all becomes one row with one empty cell and no heading counts. */
  lemma UpcastedEmpty(v: ViewTable, convertChildren: ViewRow -> Row)
    requires AllowedRows(v.children) == []
    ensures Upcasted(v, convertChildren) == Table([[EmptyCell]], None, None, map[])
  {
    ScannedRowsPermuted(v);
    assert |Scanned(v).rows| == |multiset(Scanned(v).rows)|;
    MaxHeadingColumnsIsMax(BodyRows(v.children, FirstThead(v.children)));
  }
}
