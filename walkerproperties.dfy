/**
 * What the table walker guarantees about the walk it produces: which cells it yields and in
 * which order, what the range options do, when it throws, and that the columns it computes
 * leave no gap that a cell from the rows above does not fill.
 */
module WalkerProperties {
  import opened Wrappers
  import opened TableModel
  import opened TableWalker

  // ----- The span map --------------------------------------------------------------------

  /** Column `x` lies inside a span recorded in `rs`. */
  ghost predicate Spanned(rs: map<nat, nat>, x: nat) {
    exists k :: k in rs && k <= x < k + rs[k]
  }

  /**
   * `getAdjustedColumnIndex` moves right only, stops on a column with no span, and every
   * column it steps over is inside a recorded span.
   */
  lemma {:induction false} AdjustedSkipsSpans(rs: map<nat, nat>, column: nat)
    ensures column <= Adjusted(rs, column)
    ensures !(Adjusted(rs, column) in rs && rs[Adjusted(rs, column)] > 0)
    ensures forall x :: column <= x < Adjusted(rs, column) ==> Spanned(rs, x)
    decreases |KeysFrom(rs, column)|
  {
    if column in rs && rs[column] > 0 {
      KeysFromShrinks(rs, column, column + rs[column]);
      AdjustedSkipsSpans(rs, column + rs[column]);
      forall x | column <= x < Adjusted(rs, column)
        ensures Spanned(rs, x)
      {
        if x < column + rs[column] {
          assert column in rs && column <= x < column + rs[column];
        }
      }
    }
  }

  /** A column with no span is kept as it is. */
  lemma AdjustedFree(rs: map<nat, nat>, column: nat)
    requires !(column in rs && rs[column] > 0)
    ensures Adjusted(rs, column) == column
  {
  }

  /** `recordSpans` writes `width` at `column` in exactly the rows below the cell that it reaches. */
  lemma {:induction false} RecordRows(spans: Spans, row: nat, column: nat, height: nat, width: nat)
    ensures forall r: nat ::
      RowSpans(Record(spans, row, column, height, width), r)
        == (if row < r < row + height then RowSpans(spans, r)[column := width] else RowSpans(spans, r))
    decreases height
  {
    if height > 1 {
      RecordRows(spans, row, column, height - 1, width);
    }
  }

  // ----- Storage order -------------------------------------------------------------------

  /** The addresses of the stored cells from (row, index) on, row by row. */
  function AddressesFrom(t: Table, row: nat, index: nat): seq<Addr>
    decreases |t.rows| - row, if row < |t.rows| && index <= |t.rows[row]| then |t.rows[row]| - index else 0
  {
    if row >= |t.rows| then []
    else if index >= |t.rows[row]| then AddressesFrom(t, row + 1, 0)
    else [Addr(row, index)] + AddressesFrom(t, row, index + 1)
  }

  /** Every cell of the table, in storage order. */
  function Addresses(t: Table): seq<Addr> {
    AddressesFrom(t, 0, 0)
  }

  /** The addresses whose row the range options report. */
  function InRangeAddrs(startRow: nat, endRow: nat, a: seq<Addr>): seq<Addr> {
    if a == [] then []
    else if InRange(startRow, endRow, a[0].row) then [a[0]] + InRangeAddrs(startRow, endRow, a[1..])
    else InRangeAddrs(startRow, endRow, a[1..])
  }

  /** Which cell element each value stands for. */
  function AddrsOf(w: seq<WalkerValue>): seq<Addr> {
    if w == [] then [] else [Addr(w[0].row, w[0].index)] + AddrsOf(w[1..])
  }

  /** Some stored row from `row` on has no cell. */
  ghost predicate EmptyRowFrom(t: Table, row: nat) {
    exists r :: row <= r < |t.rows| && |t.rows[r]| == 0
  }

  lemma AddressesRowEnd(t: Table, row: nat, index: nat)
    requires row < |t.rows| && index >= |t.rows[row]|
    ensures AddressesFrom(t, row, index) == AddressesFrom(t, row + 1, 0)
  {
  }

  lemma AddressesCell(t: Table, row: nat, index: nat)
    requires row < |t.rows| && index < |t.rows[row]|
    ensures AddressesFrom(t, row, index) == [Addr(row, index)] + AddressesFrom(t, row, index + 1)
  {
  }

  /** One pass of `next()` either moves past addresses the range drops, or ends, or yields the first one. */
  lemma PassInOrder(t: Table, startRow: nat, endRow: nat, v: Variant, s: Cursor)
    requires Consistent(t, s) && s.row < |t.rows|
    ensures NextPass(t, startRow, endRow, v, s).Again? ==>
      InRangeAddrs(startRow, endRow, AddressesFrom(t, s.row, s.cell))
      == InRangeAddrs(startRow, endRow, AddressesFrom(t, NextPass(t, startRow, endRow, v, s).next.row, NextPass(t, startRow, endRow, v, s).next.cell))
    ensures NextPass(t, startRow, endRow, v, s).Finish? && NextPass(t, startRow, endRow, v, s).step.Yield? ==>
      InRangeAddrs(startRow, endRow, AddressesFrom(t, s.row, s.cell))
      == [Addr(s.row, s.cell)] + InRangeAddrs(startRow, endRow, AddressesFrom(t, s.row, s.cell + 1))
  {
    var p := NextPass(t, startRow, endRow, v, s);
    if s.cell == |t.rows[s.row]| {
      AddressesRowEnd(t, s.row, s.cell);
      assert p.Again? ==> p.next.row == s.row + 1 && p.next.cell == 0;
    } else {
      var a := AddressesFrom(t, s.row, s.cell);
      AddressesCell(t, s.row, s.cell);
      var rest := InRangeAddrs(startRow, endRow, AddressesFrom(t, s.row, s.cell + 1));
      assert a[0] == Addr(s.row, s.cell) && a[1..] == AddressesFrom(t, s.row, s.cell + 1);
      if InRange(startRow, endRow, s.row) {
        assert p.Finish? && InRangeAddrs(startRow, endRow, a) == [Addr(s.row, s.cell)] + rest;
      } else {
        assert p.Again? && p.next.row == s.row && p.next.cell == s.cell + 1;
        assert InRangeAddrs(startRow, endRow, a) == rest;
      }
    }
  }

  /** One call of `next()` yields the next cell in storage order that is in range, or ends. */
  lemma {:induction false} NextInOrder(t: Table, startRow: nat, endRow: nat, v: Variant, s: Cursor)
    requires Consistent(t, s)
    ensures NextSpec(t, startRow, endRow, v, s).0.Done? ==>
      InRangeAddrs(startRow, endRow, AddressesFrom(t, s.row, s.cell)) == []
    ensures NextSpec(t, startRow, endRow, v, s).0.Yield? ==>
      InRangeAddrs(startRow, endRow, AddressesFrom(t, s.row, s.cell))
      == [Addr(NextSpec(t, startRow, endRow, v, s).0.value.row, NextSpec(t, startRow, endRow, v, s).0.value.index)]
         + InRangeAddrs(startRow, endRow, AddressesFrom(t, NextSpec(t, startRow, endRow, v, s).1.row, NextSpec(t, startRow, endRow, v, s).1.cell))
    decreases |t.rows| - s.row, RowRest(t, s)
  {
    if s.row < |t.rows| {
      var p := NextPass(t, startRow, endRow, v, s);
      PassInOrder(t, startRow, endRow, v, s);
      if p.Again? {
        NextInOrder(t, startRow, endRow, v, p.next);
        assert NextSpec(t, startRow, endRow, v, s) == NextSpec(t, startRow, endRow, v, p.next);
      } else {
        assert NextSpec(t, startRow, endRow, v, s) == (p.step, p.at);
      }
    }
  }

  /** `next()` throws only on reaching a stored row with no cell. */
  lemma {:induction false} NextThrows(t: Table, startRow: nat, endRow: nat, v: Variant, s: Cursor)
    requires Consistent(t, s)
    ensures NextSpec(t, startRow, endRow, v, s).0.Throws? ==> EmptyRowFrom(t, s.row)
    decreases |t.rows| - s.row, RowRest(t, s)
  {
    if s.row < |t.rows| {
      match NextPass(t, startRow, endRow, v, s)
      case Finish(step, at) =>
        if step.Throws? {
          assert |t.rows[s.row]| == 0;
        }
      case Again(n) =>
        NextThrows(t, startRow, endRow, v, n);
        if NextSpec(t, startRow, endRow, v, n).0.Throws? {
          var q :| n.row <= q < |t.rows| && |t.rows[q]| == 0;
          assert s.row <= q;
        }
    }
  }

  /** As written, `next()` gets past a row only when that row has a cell. */
  lemma {:induction false} NextPassesRows(t: Table, startRow: nat, endRow: nat, s: Cursor)
    requires Consistent(t, s)
    ensures var r := NextSpec(t, startRow, endRow, AsWritten, s);
      && (r.0.Done? ==> !EmptyRowFrom(t, s.row))
      && (r.0.Yield? ==> forall q :: s.row <= q < r.1.row ==> |t.rows[q]| > 0)
    decreases |t.rows| - s.row, RowRest(t, s)
  {
    if s.row < |t.rows| {
      match NextPass(t, startRow, endRow, AsWritten, s)
      case Finish(step, at) =>
      case Again(n) =>
        NextPassesRows(t, startRow, endRow, n);
        if s.cell == |t.rows[s.row]| {
          assert s.previous.Some?;
        }
    }
  }

  /** A walk from `s` yields the in-range cells from `s` on in storage order, unless it throws. */
  lemma {:induction false} WalkFromInOrder(t: Table, startRow: nat, endRow: nat, v: Variant, s: Cursor)
    requires Consistent(t, s)
    ensures var w := WalkFrom(t, startRow, endRow, v, s);
      && (!w.threw ==> AddrsOf(w.values) == InRangeAddrs(startRow, endRow, AddressesFrom(t, s.row, s.cell)))
      && (w.threw ==> EmptyRowFrom(t, s.row))
      && (v == AsWritten && EmptyRowFrom(t, s.row) ==> w.threw)
    decreases |t.rows| - s.row, RowRest(t, s)
  {
    var r := NextSpec(t, startRow, endRow, v, s);
    NextInOrder(t, startRow, endRow, v, s);
    NextThrows(t, startRow, endRow, v, s);
    if v == AsWritten {
      NextPassesRows(t, startRow, endRow, s);
    }
    if r.0.Yield? {
      WalkFromInOrder(t, startRow, endRow, v, r.1);
      var w := WalkFrom(t, startRow, endRow, v, s);
      var rest := WalkFrom(t, startRow, endRow, v, r.1);
      assert w.values == [r.0.value] + rest.values;
      assert AddrsOf(w.values) == [Addr(r.0.value.row, r.0.value.index)] + AddrsOf(rest.values) by {
        assert w.values[1..] == rest.values;
      }
      if rest.threw {
        var q :| r.1.row <= q < |t.rows| && |t.rows[q]| == 0;
        assert s.row <= q;
      }
      if v == AsWritten && EmptyRowFrom(t, s.row) {
        var q :| s.row <= q < |t.rows| && |t.rows[q]| == 0;
        assert r.1.row <= q;
      }
    }
  }

  /**
   * The walk yields every stored cell whose row is in range, each once, in storage order.
   * The corrected walk never throws; the walk as written throws exactly when a stored row has
   * no cell.
   */
  lemma WalkInStorageOrder(t: Table, startRow: nat, endRow: nat, v: Variant)
    ensures var w := Walk(t, startRow, endRow, v);
      && (!w.threw ==> AddrsOf(w.values) == InRangeAddrs(startRow, endRow, Addresses(t)))
      && (w.threw <==> v == AsWritten && EmptyRowFrom(t, 0))
  {
    WalkFromInOrder(t, startRow, endRow, v, Start());
  }

  /** With no range options every cell address is reached. */
  lemma {:induction false} AllInRange(a: seq<Addr>)
    ensures InRangeAddrs(0, 0, a) == a
  {
    if a != [] {
      AllInRange(a[1..]);
    }
  }

  // ----- The range options ---------------------------------------------------------------

  /** The values of a walk whose row the range options report. */
  function RowsInRange(startRow: nat, endRow: nat, w: seq<WalkerValue>): (r: seq<WalkerValue>)
    ensures |r| <= |w|
  {
    if w == [] then []
    else if InRange(startRow, endRow, w[0].row) then [w[0]] + RowsInRange(startRow, endRow, w[1..])
    else RowsInRange(startRow, endRow, w[1..])
  }

  /**
   * One ranged `next()` is the unranged one repeated while it yields a row out of range: the
   * spans are recorded the same way whether or not a row is reported.
   */
  lemma {:induction false} RangedNext(t: Table, startRow: nat, endRow: nat, v: Variant, s: Cursor)
    requires Consistent(t, s)
    ensures var r0 := NextSpec(t, 0, 0, v, s);
      NextSpec(t, startRow, endRow, v, s)
        == if r0.0.Yield? && !InRange(startRow, endRow, r0.0.value.row)
           then NextSpec(t, startRow, endRow, v, r0.1) else r0
    decreases |t.rows| - s.row, RowRest(t, s)
  {
    var p := NextPass(t, startRow, endRow, v, s);
    var p0 := NextPass(t, 0, 0, v, s);
    if s.row < |t.rows| && s.cell == |t.rows[s.row]| {
      if p.Again? {
        RangedNext(t, startRow, endRow, v, p.next);
      }
    }
  }

  /** `new TableWalker( t, { startRow, endRow } )` yields the rows in range of the full walk. */
  lemma {:induction false} RangedWalkFrom(t: Table, startRow: nat, endRow: nat, v: Variant, s: Cursor)
    requires Consistent(t, s)
    ensures WalkFrom(t, startRow, endRow, v, s)
      == Walked(RowsInRange(startRow, endRow, WalkFrom(t, 0, 0, v, s).values), WalkFrom(t, 0, 0, v, s).threw)
    decreases |t.rows| - s.row, RowRest(t, s)
  {
    var r0 := NextSpec(t, 0, 0, v, s);
    RangedNext(t, startRow, endRow, v, s);
    if r0.0.Yield? {
      RangedWalkFrom(t, startRow, endRow, v, r0.1);
      var full := WalkFrom(t, 0, 0, v, s).values;
      assert full == [r0.0.value] + WalkFrom(t, 0, 0, v, r0.1).values;
      assert full[1..] == WalkFrom(t, 0, 0, v, r0.1).values;
    }
  }

  lemma RangedWalk(t: Table, startRow: nat, endRow: nat, v: Variant)
    ensures Walk(t, startRow, endRow, v)
      == Walked(RowsInRange(startRow, endRow, Walk(t, 0, 0, v).values), Walk(t, 0, 0, v).threw)
  {
    RangedWalkFrom(t, startRow, endRow, v, Start());
  }

  // ----- What each value holds -----------------------------------------------------------

  /**
   * Every value is the stored cell at (row, index) with its spans read as `|| 1` reads them
   * and the table's heading counts read as `|| 0` reads them.
   */
  ghost predicate ValuesOf(t: Table, w: seq<WalkerValue>) {
    forall i :: 0 <= i < |w| ==>
      && w[i].row < |t.rows| && w[i].index < |t.rows[w[i].row]|
      && w[i].cell == t.rows[w[i].row][w[i].index]
      && w[i].rowspan == Span(w[i].cell.rowspan) && w[i].colspan == Span(w[i].cell.colspan)
      && w[i].rowspan >= 1 && w[i].colspan >= 1
      && w[i].table == TableData(HeadingRowsOf(t), HeadingColumnsOf(t))
  }

  lemma {:induction false} WalkFromValues(t: Table, startRow: nat, endRow: nat, v: Variant, s: Cursor)
    requires Consistent(t, s)
    ensures ValuesOf(t, WalkFrom(t, startRow, endRow, v, s).values)
    decreases |t.rows| - s.row, RowRest(t, s)
  {
    var r := NextSpec(t, startRow, endRow, v, s);
    if r.0.Yield? {
      WalkFromValues(t, startRow, endRow, v, r.1);
      var w := WalkFrom(t, startRow, endRow, v, s).values;
      assert w == [r.0.value] + WalkFrom(t, startRow, endRow, v, r.1).values;
    }
  }

  lemma WalkValues(t: Table, startRow: nat, endRow: nat, v: Variant)
    ensures ValuesOf(t, Walk(t, startRow, endRow, v).values)
  {
    WalkFromValues(t, startRow, endRow, v, Start());
  }

  // ----- Columns within a row ------------------------------------------------------------

  /** Two values in a row from the same stored row: the second starts right of the first's end. */
  ghost predicate ColumnsAscend(w: seq<WalkerValue>) {
    forall i :: 0 <= i < |w| - 1 && w[i].row == w[i + 1].row ==>
      w[i + 1].column >= w[i].column + w[i].colspan && w[i + 1].index == w[i].index + 1
  }

  lemma {:induction false} NextColumn(t: Table, startRow: nat, endRow: nat, v: Variant, s: Cursor)
    requires Consistent(t, s) && s.previous.Some?
    ensures var r := NextSpec(t, startRow, endRow, v, s);
      r.0.Yield? && r.0.value.row == s.row ==>
        r.0.value.column >= s.column + Span(s.previous.value.colspan) && r.0.value.index == s.cell
  {
    match NextPass(t, startRow, endRow, v, s)
    case Finish(step, at) =>
      if step.Yield? {
        AdjustedSkipsSpans(RowSpans(RecordCell(s.spans, s.row, s.column, s.previous.value), s.row),
          s.column + Span(s.previous.value.colspan));
      }
    case Again(n) =>
  }

  lemma {:induction false} WalkFromColumns(t: Table, startRow: nat, endRow: nat, v: Variant, s: Cursor)
    requires Consistent(t, s)
    ensures ColumnsAscend(WalkFrom(t, startRow, endRow, v, s).values)
    decreases |t.rows| - s.row, RowRest(t, s)
  {
    var r := NextSpec(t, startRow, endRow, v, s);
    if r.0.Yield? {
      WalkFromColumns(t, startRow, endRow, v, r.1);
      NextColumn(t, startRow, endRow, v, r.1);
      var rest := WalkFrom(t, startRow, endRow, v, r.1).values;
      var w := WalkFrom(t, startRow, endRow, v, s).values;
      assert w == [r.0.value] + rest;
      if rest != [] {
        var r2 := NextSpec(t, startRow, endRow, v, r.1);
        assert rest[0] == r2.0.value;
      }
    }
  }

  /** Within a row the values come left to right, one cell after the other, without overlap. */
  lemma WalkColumns(t: Table, startRow: nat, endRow: nat, v: Variant)
    ensures ColumnsAscend(Walk(t, startRow, endRow, v).values)
  {
    WalkFromColumns(t, startRow, endRow, v, Start());
  }

  // ----- No gaps -------------------------------------------------------------------------

  /** Value `u` comes from a row above `row` and spans down over column `x` of it. */
  predicate Covers(u: WalkerValue, row: nat, x: nat) {
    u.row < row < u.row + u.rowspan && u.column <= x < u.column + u.colspan
  }

  /** Some value of `seen` covers column `x` of `row`. */
  ghost predicate CoveredBy(seen: seq<WalkerValue>, row: nat, x: nat) {
    exists u :: u in seen && Covers(u, row, x)
  }

  /** Some value before the `j`-th covers column `x` of its row. */
  ghost predicate CoveredBefore(w: seq<WalkerValue>, j: nat, x: nat)
    requires j < |w|
  {
    exists k :: 0 <= k < j && Covers(w[k], w[j].row, x)
  }

  /** Where the `j`-th value's row was filled up to by the values before it in that row. */
  function RowStartAt(w: seq<WalkerValue>, j: nat): nat
    requires j < |w|
  {
    if j > 0 && w[j - 1].row == w[j].row then w[j - 1].column + w[j - 1].colspan else 0
  }

  /**
   * Every column a value is moved past is occupied by a cell from a row above: the columns
   * the walker computes leave no hole in the grid.
   */
  ghost predicate GapFree(w: seq<WalkerValue>) {
    forall j, x :: 0 <= j < |w| && RowStartAt(w, j) <= x < w[j].column ==> CoveredBefore(w, j, x)
  }

  /** An entry of the span map was put there by the value at its top-left cell. */
  ghost predicate Witnessed(seen: seq<WalkerValue>, r: nat, k: nat, width: nat) {
    exists u :: u in seen && u.row < r < u.row + u.rowspan && u.column == k && u.colspan == width
  }

  ghost predicate SpansSound(spans: Spans, seen: seq<WalkerValue>) {
    forall r: nat, k :: k in RowSpans(spans, r) ==> Witnessed(seen, r, k, RowSpans(spans, r)[k])
  }

  /** What holds between the cursor of a full walk and the values it has yielded so far. */
  ghost predicate Tracks(s: Cursor, seen: seq<WalkerValue>) {
    && SpansSound(s.spans, seen)
    && (s.previous.Some? ==>
          && |seen| > 0 && seen[|seen| - 1].row == s.row && seen[|seen| - 1].column == s.column
          && seen[|seen| - 1].rowspan == Span(s.previous.value.rowspan)
          && seen[|seen| - 1].colspan == Span(s.previous.value.colspan))
    && (s.previous.None? && |seen| > 0 ==> seen[|seen| - 1].row < s.row)
  }

  lemma SoundGrows(spans: Spans, seen: seq<WalkerValue>, v: WalkerValue)
    requires SpansSound(spans, seen)
    ensures SpansSound(spans, seen + [v])
  {
    forall r: nat, k | k in RowSpans(spans, r)
      ensures Witnessed(seen + [v], r, k, RowSpans(spans, r)[k])
    {
      var u :| u in seen && u.row < r < u.row + u.rowspan && u.column == k && u.colspan == RowSpans(spans, r)[k];
      assert u in seen + [v];
    }
  }

  lemma SoundRecord(spans: Spans, seen: seq<WalkerValue>, u: WalkerValue)
    requires SpansSound(spans, seen) && u in seen
    ensures SpansSound(Record(spans, u.row, u.column, u.rowspan, u.colspan), seen)
  {
    var after := Record(spans, u.row, u.column, u.rowspan, u.colspan);
    RecordRows(spans, u.row, u.column, u.rowspan, u.colspan);
    forall r: nat, k | k in RowSpans(after, r)
      ensures Witnessed(seen, r, k, RowSpans(after, r)[k])
    {
      if u.row < r < u.row + u.rowspan && k == u.column {
        assert RowSpans(after, r)[k] == u.colspan;
      } else {
        assert k in RowSpans(spans, r) && RowSpans(after, r)[k] == RowSpans(spans, r)[k];
      }
    }
  }

  /** Where the row of `v` had been filled up to when the walker stood at `s`. */
  function RowStart(s: Cursor, v: WalkerValue): nat {
    if s.previous.Some? && v.row == s.row then s.column + Span(s.previous.value.colspan) else 0
  }

  lemma {:induction false} CoveredStep(t: Table, s: Cursor, seen: seq<WalkerValue>)
    requires Consistent(t, s) && Tracks(s, seen)
    ensures var r := NextSpec(t, 0, 0, Corrected, s);
      r.0.Yield? ==>
        && Tracks(r.1, seen + [r.0.value])
        && forall x :: RowStart(s, r.0.value) <= x < r.0.value.column ==> CoveredBy(seen, r.0.value.row, x)
    decreases |t.rows| - s.row, RowRest(t, s)
  {
    if s.row < |t.rows| {
      var row := t.rows[s.row];
      var column := if s.previous.Some? then s.column + Span(s.previous.value.colspan) else s.column;
      var spans := if s.previous.Some? then RecordCell(s.spans, s.row, s.column, s.previous.value) else s.spans;
      assert SpansSound(spans, seen) by {
        if s.previous.Some? {
          SoundRecord(s.spans, seen, seen[|seen| - 1]);
        }
      }
      if s.cell == |row| {
        var n := Cursor(s.row + 1, 0, 0, None, spans);
        assert NextPass(t, 0, 0, Corrected, s) == Again(n);
        CoveredStep(t, n, seen);
        var r := NextSpec(t, 0, 0, Corrected, n);
        if r.0.Yield? {
          assert r.0.value.row >= n.row;
          assert RowStart(s, r.0.value) == 0 == RowStart(n, r.0.value);
        }
      } else {
        var cell := row[s.cell];
        var rs := RowSpans(spans, s.row);
        var col := Adjusted(rs, column);
        var v := WalkerValue(cell, s.row, s.cell, col, Span(cell.rowspan), Span(cell.colspan), Data(t));
        assert NextPass(t, 0, 0, Corrected, s) == Finish(Yield(v), Cursor(s.row, s.cell + 1, col, Some(cell), spans));
        SoundGrows(spans, seen, v);
        AdjustedSkipsSpans(rs, column);
        forall x | RowStart(s, v) <= x < col
          ensures CoveredBy(seen, v.row, x)
        {
          assert Spanned(rs, x);
          var k :| k in rs && k <= x < k + rs[k];
          var u :| u in seen && u.row < s.row < u.row + u.rowspan && u.column == k && u.colspan == rs[k];
          assert Covers(u, v.row, x);
        }
      }
    }
  }

  lemma {:induction false} GapFreeExtend(seen: seq<WalkerValue>, v: WalkerValue)
    requires GapFree(seen)
    requires forall x :: RowStartAt(seen + [v], |seen|) <= x < v.column ==> CoveredBy(seen, v.row, x)
    ensures GapFree(seen + [v])
  {
    var w := seen + [v];
    forall j, x | 0 <= j < |w| && RowStartAt(w, j) <= x < w[j].column
      ensures CoveredBefore(w, j, x)
    {
      if j < |seen| {
        assert RowStartAt(w, j) == RowStartAt(seen, j);
        assert CoveredBefore(seen, j, x);
        var k :| 0 <= k < j && Covers(seen[k], seen[j].row, x);
        assert Covers(w[k], w[j].row, x);
      } else {
        assert CoveredBy(seen, v.row, x);
        var u :| u in seen && Covers(u, v.row, x);
        var k :| 0 <= k < |seen| && seen[k] == u;
        assert Covers(w[k], w[j].row, x);
      }
    }
  }

  lemma {:induction false} WalkFromGapFree(t: Table, s: Cursor, seen: seq<WalkerValue>)
    requires Consistent(t, s) && Tracks(s, seen) && GapFree(seen)
    ensures GapFree(seen + WalkFrom(t, 0, 0, Corrected, s).values)
    decreases |t.rows| - s.row, RowRest(t, s)
  {
    var r := NextSpec(t, 0, 0, Corrected, s);
    if r.0.Yield? {
      var v := r.0.value;
      CoveredStep(t, s, seen);
      assert RowStartAt(seen + [v], |seen|) == RowStart(s, v);
      GapFreeExtend(seen, v);
      WalkFromGapFree(t, r.1, seen + [v]);
      assert seen + WalkFrom(t, 0, 0, Corrected, s).values
        == (seen + [v]) + WalkFrom(t, 0, 0, Corrected, r.1).values;
    } else {
      assert seen + WalkFrom(t, 0, 0, Corrected, s).values == seen;
    }
  }

  /**
   * The corrected walker's columns are gap-free: every column of a row left of a value and
   * right of the values before it in that row belongs to a cell from a row above.
   */
  lemma CorrectedWalkGapFree(t: Table)
    ensures GapFree(Walk(t, 0, 0, Corrected).values)
  {
    WalkFromGapFree(t, Start(), []);
    assert [] + Walk(t, 0, 0, Corrected).values == Walk(t, 0, 0, Corrected).values;
  }
}
