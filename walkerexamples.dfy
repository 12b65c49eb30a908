/**
 * Concrete walks: the example of the `TableWalker` documentation, the table on which the
 * second span recording at the end of a row misplaces a cell, and a row with no cell.
 */
module WalkerExamples {
  import opened Wrappers
  import opened TableModel
  import opened TableWalker
  import opened WalkerProperties

  /** A cell named by its only paragraph, with the given spans (1 is stored as no attribute). */
  function C(name: string, rowspan: nat, colspan: nat): Cell {
    Cell(if rowspan == 1 then None else Some(rowspan), if colspan == 1 then None else Some(colspan),
      None, [Paragraph(name)], map[])
  }

  function Value(t: Table, c: Cell, row: nat, index: nat, column: nat): WalkerValue {
    WalkerValue(c, row, index, column, Span(c.rowspan), Span(c.colspan), Data(t))
  }

  // ----- The documented example ----------------------------------------------------------

  /**
   *   +----+----+----+----+----+----+
   *   | 00      | 02 | 03      | 05 |
   *   |         +--- +----+----+----+
   *   |         | 12      | 24 | 25 |
   *   |         +----+----+----+----+
   *   |         | 22                |
   *   |----+----+                   +
   *   | 31 | 32 |                   |
   *   +----+----+----+----+----+----+
   */
  function DocTable(): Table {
    Table([
      [C("00", 3, 2), C("02", 1, 1), C("03", 1, 2), C("05", 1, 1)],
      [C("12", 1, 2), C("24", 1, 1), C("25", 1, 1)],
      [C("22", 2, 4)],
      [C("31", 1, 1), C("32", 1, 1)]], None, None, map[])
  }

  /** The spans of cell 00 in rows 1 and 2. */
  function DocSpans(): Spans {
    map[1 := map[0 := 2], 2 := map[0 := 2]]
  }

  /** Rows 0 and 1 up to cell 12, all of row 0 being skipped. */
  lemma DocStep1()
    ensures NextSpec(DocTable(), 1, 2, AsWritten, Start())
      == (Yield(Value(DocTable(), C("12", 1, 2), 1, 0, 2)), Cursor(1, 1, 2, Some(C("12", 1, 2)), DocSpans()))
  {
    var t := DocTable();
    var s1 := Cursor(0, 1, 0, Some(C("00", 3, 2)), map[]);
    var s2 := Cursor(0, 2, 2, Some(C("02", 1, 1)), DocSpans());
    var s3 := Cursor(0, 3, 3, Some(C("03", 1, 2)), DocSpans());
    var s4 := Cursor(0, 4, 5, Some(C("05", 1, 1)), DocSpans());
    var s5 := Cursor(1, 0, 0, None, DocSpans());
    assert NextPass(t, 1, 2, AsWritten, Start()) == Again(s1);
    assert RecordCell(map[], 0, 0, C("00", 3, 2)) == DocSpans();
    assert NextPass(t, 1, 2, AsWritten, s1) == Again(s2);
    assert NextPass(t, 1, 2, AsWritten, s2) == Again(s3);
    assert NextPass(t, 1, 2, AsWritten, s3) == Again(s4);
    assert NextPass(t, 1, 2, AsWritten, s4) == Again(s5);
    assert Adjusted(map[0 := 2], 2) == 2;
    assert Adjusted(map[0 := 2], 0) == 2;
  }

  lemma DocStep2()
    ensures Consistent(DocTable(), Cursor(1, 1, 2, Some(C("12", 1, 2)), DocSpans()))
    ensures NextSpec(DocTable(), 1, 2, AsWritten, Cursor(1, 1, 2, Some(C("12", 1, 2)), DocSpans()))
      == (Yield(Value(DocTable(), C("24", 1, 1), 1, 1, 4)), Cursor(1, 2, 4, Some(C("24", 1, 1)), DocSpans()))
  {
    assert Adjusted(map[0 := 2], 4) == 4;
  }

  lemma DocStep3()
    ensures Consistent(DocTable(), Cursor(1, 2, 4, Some(C("24", 1, 1)), DocSpans()))
    ensures NextSpec(DocTable(), 1, 2, AsWritten, Cursor(1, 2, 4, Some(C("24", 1, 1)), DocSpans()))
      == (Yield(Value(DocTable(), C("25", 1, 1), 1, 2, 5)), Cursor(1, 3, 5, Some(C("25", 1, 1)), DocSpans()))
  {
    assert Adjusted(map[0 := 2], 5) == 5;
  }

  lemma DocStep4()
    ensures Consistent(DocTable(), Cursor(1, 3, 5, Some(C("25", 1, 1)), DocSpans()))
    ensures NextSpec(DocTable(), 1, 2, AsWritten, Cursor(1, 3, 5, Some(C("25", 1, 1)), DocSpans()))
      == (Yield(Value(DocTable(), C("22", 2, 4), 2, 0, 2)), Cursor(2, 1, 2, Some(C("22", 2, 4)), DocSpans()))
  {
    var t := DocTable();
    var s := Cursor(1, 3, 5, Some(C("25", 1, 1)), DocSpans());
    var n := Cursor(2, 0, 0, None, DocSpans());
    assert NextPass(t, 1, 2, AsWritten, s) == Again(n);
    assert Adjusted(map[0 := 2], 2) == 2;
    assert Adjusted(map[0 := 2], 0) == 2;
  }

  /** After cell 22 come the cells of row 3, which `endRow` excludes, and the end. */
  lemma DocStep5()
    ensures Consistent(DocTable(), Cursor(2, 1, 2, Some(C("22", 2, 4)), DocSpans()))
    ensures NextSpec(DocTable(), 1, 2, AsWritten, Cursor(2, 1, 2, Some(C("22", 2, 4)), DocSpans())).0 == Done
  {
    var t := DocTable();
    var s := Cursor(2, 1, 2, Some(C("22", 2, 4)), DocSpans());
    var sp1 := DocSpans()[3 := map[2 := 4]];
    var sp2 := DocSpans()[3 := map[2 := 4, 6 := 4]];
    assert RecordCell(DocSpans(), 2, 2, C("22", 2, 4)) == sp1;
    assert RecordCell(sp1, 2, 6, C("22", 2, 4)) == sp2;
    var n1 := Cursor(3, 0, 0, None, sp2);
    assert NextPass(t, 1, 2, AsWritten, s) == Again(n1);
    assert RowSpans(sp2, 3) == map[2 := 4, 6 := 4];
    assert Adjusted(map[2 := 4, 6 := 4], 0) == 0;
    assert Adjusted(map[2 := 4, 6 := 4], 1) == 1;
    var n2 := Cursor(3, 1, 0, Some(C("31", 1, 1)), sp2);
    assert NextPass(t, 1, 2, AsWritten, n1) == Again(n2);
    var n3 := Cursor(3, 2, 1, Some(C("32", 1, 1)), sp2);
    assert NextPass(t, 1, 2, AsWritten, n2) == Again(n3);
    var n4 := Cursor(4, 0, 0, None, sp2);
    assert NextPass(t, 1, 2, AsWritten, n3) == Again(n4);
  }

  /** The documented output, built from its tails: from cell 12, 24, 25 and 22 on. */
  function DocValues(): seq<WalkerValue> {
    [Value(DocTable(), C("12", 1, 2), 1, 0, 2)] + DocFrom24()
  }

  function DocFrom24(): seq<WalkerValue> {
    [Value(DocTable(), C("24", 1, 1), 1, 1, 4)] + DocFrom25()
  }

  function DocFrom25(): seq<WalkerValue> {
    [Value(DocTable(), C("25", 1, 1), 1, 2, 5)] + DocFrom22()
  }

  function DocFrom22(): seq<WalkerValue> {
    [Value(DocTable(), C("22", 2, 4), 2, 0, 2)] + []
  }

  lemma DocWalk4()
    ensures Consistent(DocTable(), Cursor(1, 3, 5, Some(C("25", 1, 1)), DocSpans()))
    ensures WalkFrom(DocTable(), 1, 2, AsWritten, Cursor(1, 3, 5, Some(C("25", 1, 1)), DocSpans()))
      == Walked(DocFrom22(), false)
  {
    DocStep4();
    DocStep5();
  }

  lemma DocWalk3()
    ensures Consistent(DocTable(), Cursor(1, 2, 4, Some(C("24", 1, 1)), DocSpans()))
    ensures WalkFrom(DocTable(), 1, 2, AsWritten, Cursor(1, 2, 4, Some(C("24", 1, 1)), DocSpans()))
      == Walked(DocFrom25(), false)
  {
    DocStep3();
    DocWalk4();
  }

  lemma DocWalk2()
    ensures Consistent(DocTable(), Cursor(1, 1, 2, Some(C("12", 1, 2)), DocSpans()))
    ensures WalkFrom(DocTable(), 1, 2, AsWritten, Cursor(1, 1, 2, Some(C("12", 1, 2)), DocSpans()))
      == Walked(DocFrom24(), false)
  {
    DocStep2();
    DocWalk3();
  }

  /** The documented output: rows 1 and 2 give cells at columns 2, 4, 5 and 2. */
  lemma DocExample()
    ensures Walk(DocTable(), 1, 2, AsWritten) == Walked(DocValues(), false)
  {
    DocStep1();
    DocWalk2();
  }

  // ----- The misplaced cell --------------------------------------------------------------

  /**
   *   +---+---+---+
   *   | A | B | K |
   *   +---+   +   +
   *   | C |   |   |
   *   +   +---+---+
   *   |   | D | E |
   *   +---+---+---+
   */
  function Shifted(): Table {
    Table([
      [C("A", 1, 1), C("B", 2, 1), C("K", 2, 1)],
      [C("C", 2, 1)],
      [C("D", 1, 1), C("E", 1, 1)]], None, None, map[])
  }

  /** The spans of B and K in row 1. */
  function ShiftedSpans(): Spans {
    map[1 := map[1 := 1, 2 := 1]]
  }

  /** Row 0, the same for both variants: A, B and K at columns 0, 1 and 2. */
  ghost predicate ShiftedRow0Steps(v: Variant) {
    var t := Shifted();
      && NextSpec(t, 0, 0, v, Start()) == (Yield(Value(t, C("A", 1, 1), 0, 0, 0)), Cursor(0, 1, 0, Some(C("A", 1, 1)), map[]))
      && Consistent(t, Cursor(0, 1, 0, Some(C("A", 1, 1)), map[]))
      && NextSpec(t, 0, 0, v, Cursor(0, 1, 0, Some(C("A", 1, 1)), map[]))
        == (Yield(Value(t, C("B", 2, 1), 0, 1, 1)), Cursor(0, 2, 1, Some(C("B", 2, 1)), map[]))
      && Consistent(t, Cursor(0, 2, 1, Some(C("B", 2, 1)), map[]))
      && NextSpec(t, 0, 0, v, Cursor(0, 2, 1, Some(C("B", 2, 1)), map[]))
        == (Yield(Value(t, C("K", 2, 1), 0, 2, 2)), Cursor(0, 3, 2, Some(C("K", 2, 1)), map[1 := map[1 := 1]]))
  }

  lemma ShiftedRow0(v: Variant)
    ensures ShiftedRow0Steps(v)
  {
    assert RecordCell(map[], 0, 1, C("B", 2, 1)) == map[1 := map[1 := 1]];
  }

  /** A walk that yields a value goes on from the cursor the yield leaves behind. */
  lemma WalkStep(t: Table, v: Variant, s: Cursor)
    requires Consistent(t, s) && NextSpec(t, 0, 0, v, s).0.Yield?
    ensures var w := WalkFrom(t, 0, 0, v, s).values;
      && |w| > 0 && w[0] == NextSpec(t, 0, 0, v, s).0.value
      && w[1..] == WalkFrom(t, 0, 0, v, NextSpec(t, 0, 0, v, s).1).values
  {
  }

  /** The first five values of a walk over `Shifted()` from the steps after A, B, K, C and D. */
  lemma ShiftedPrefix(v: Variant, k: Cursor, c: Cursor, d: Cursor)
    requires ShiftedRow0Steps(v)
    requires Consistent(Shifted(), k) && Consistent(Shifted(), c) && Consistent(Shifted(), d)
    requires k == Cursor(0, 3, 2, Some(C("K", 2, 1)), map[1 := map[1 := 1]])
    requires NextSpec(Shifted(), 0, 0, v, k).0.Yield? && NextSpec(Shifted(), 0, 0, v, k).1 == c
    requires NextSpec(Shifted(), 0, 0, v, c).0.Yield? && NextSpec(Shifted(), 0, 0, v, c).1 == d
    ensures var w := Walk(Shifted(), 0, 0, v).values;
      && |w| >= 5
      && w[0] == Value(Shifted(), C("A", 1, 1), 0, 0, 0) && w[1] == Value(Shifted(), C("B", 2, 1), 0, 1, 1)
      && w[2] == Value(Shifted(), C("K", 2, 1), 0, 2, 2)
      && w[3] == NextSpec(Shifted(), 0, 0, v, k).0.value && w[4] == NextSpec(Shifted(), 0, 0, v, c).0.value
  {
    var t := Shifted();
    var a := Cursor(0, 1, 0, Some(C("A", 1, 1)), map[]);
    var b := Cursor(0, 2, 1, Some(C("B", 2, 1)), map[]);
    WalkStep(t, v, Start());
    WalkStep(t, v, a);
    WalkStep(t, v, b);
    WalkStep(t, v, k);
    WalkStep(t, v, c);
    var w, wa, wb, wk, wc := Walk(t, 0, 0, v).values, WalkFrom(t, 0, 0, v, a).values,
      WalkFrom(t, 0, 0, v, b).values, WalkFrom(t, 0, 0, v, k).values, WalkFrom(t, 0, 0, v, c).values;
    assert w[1..] == wa && wa[1..] == wb && wb[1..] == wk && wk[1..] == wc;
    assert w[1] == wa[0] && w[2] == wb[0] && w[3] == wk[0] && w[4] == wc[0];
  }

  /** As written, the end of row 0 records K again at column 3 and the end of row 1 records C again at column 1. */
  lemma ShiftedAsWritten()
    ensures var w := Walk(Shifted(), 0, 0, AsWritten).values;
      && |w| >= 5
      && w[0] == Value(Shifted(), C("A", 1, 1), 0, 0, 0) && w[1] == Value(Shifted(), C("B", 2, 1), 0, 1, 1)
      && w[2] == Value(Shifted(), C("K", 2, 1), 0, 2, 2) && w[3] == Value(Shifted(), C("C", 2, 1), 1, 0, 0)
      && w[4] == Value(Shifted(), C("D", 1, 1), 2, 0, 2)
  {
    var t := Shifted();
    ShiftedRow0(AsWritten);
    var k := Cursor(0, 3, 2, Some(C("K", 2, 1)), map[1 := map[1 := 1]]);
    var sp1 := map[1 := map[1 := 1, 2 := 1, 3 := 1]];
    assert RecordCell(map[1 := map[1 := 1]], 0, 2, C("K", 2, 1)) == ShiftedSpans();
    assert RecordCell(ShiftedSpans(), 0, 3, C("K", 2, 1)) == sp1;
    var r1 := Cursor(1, 0, 0, None, sp1);
    assert NextPass(t, 0, 0, AsWritten, k) == Again(r1);
    var c := Cursor(1, 1, 0, Some(C("C", 2, 1)), sp1);
    assert NextSpec(t, 0, 0, AsWritten, k) == (Yield(Value(t, C("C", 2, 1), 1, 0, 0)), c);
    var sp2 := sp1[2 := map[0 := 1]];
    var sp3 := sp1[2 := map[0 := 1, 1 := 1]];
    assert RecordCell(sp1, 1, 0, C("C", 2, 1)) == sp2;
    assert RecordCell(sp2, 1, 1, C("C", 2, 1)) == sp3;
    var r2 := Cursor(2, 0, 0, None, sp3);
    assert NextPass(t, 0, 0, AsWritten, c) == Again(r2);
    assert Adjusted(sp3[2], 2) == 2;
    assert Adjusted(sp3[2], 1) == 2;
    assert Adjusted(sp3[2], 0) == 2;
    var d := Cursor(2, 1, 2, Some(C("D", 1, 1)), sp3);
    assert NextSpec(t, 0, 0, AsWritten, c) == (Yield(Value(t, C("D", 1, 1), 2, 0, 2)), d);
    ShiftedPrefix(AsWritten, k, c, d);
  }

  /** Corrected, D takes the free column 1 left of it. */
  lemma ShiftedCorrected()
    ensures var w := Walk(Shifted(), 0, 0, Corrected).values;
      && |w| >= 5
      && w[0] == Value(Shifted(), C("A", 1, 1), 0, 0, 0) && w[1] == Value(Shifted(), C("B", 2, 1), 0, 1, 1)
      && w[2] == Value(Shifted(), C("K", 2, 1), 0, 2, 2) && w[3] == Value(Shifted(), C("C", 2, 1), 1, 0, 0)
      && w[4] == Value(Shifted(), C("D", 1, 1), 2, 0, 1)
  {
    var t := Shifted();
    ShiftedRow0(Corrected);
    var k := Cursor(0, 3, 2, Some(C("K", 2, 1)), map[1 := map[1 := 1]]);
    assert RecordCell(map[1 := map[1 := 1]], 0, 2, C("K", 2, 1)) == ShiftedSpans();
    var r1 := Cursor(1, 0, 0, None, ShiftedSpans());
    assert NextPass(t, 0, 0, Corrected, k) == Again(r1);
    var c := Cursor(1, 1, 0, Some(C("C", 2, 1)), ShiftedSpans());
    assert NextSpec(t, 0, 0, Corrected, k) == (Yield(Value(t, C("C", 2, 1), 1, 0, 0)), c);
    var sp2 := ShiftedSpans()[2 := map[0 := 1]];
    assert RecordCell(ShiftedSpans(), 1, 0, C("C", 2, 1)) == sp2;
    var r2 := Cursor(2, 0, 0, None, sp2);
    assert NextPass(t, 0, 0, Corrected, c) == Again(r2);
    assert Adjusted(sp2[2], 1) == 1;
    assert Adjusted(sp2[2], 0) == 1;
    var d := Cursor(2, 1, 1, Some(C("D", 1, 1)), sp2);
    assert NextSpec(t, 0, 0, Corrected, c) == (Yield(Value(t, C("D", 1, 1), 2, 0, 1)), d);
    ShiftedPrefix(Corrected, k, c, d);
  }

  /**
   * As written the walk is not gap-free: D is put at column 2 although column 1 of row 2 is
   * free (B reaches only row 1).
   */
  lemma AsWrittenLeavesGap()
    ensures !GapFree(Walk(Shifted(), 0, 0, AsWritten).values)
  {
    ShiftedAsWritten();
    ShiftedNotGapFree(Walk(Shifted(), 0, 0, AsWritten).values);
  }

  lemma ShiftedNotGapFree(w: seq<WalkerValue>)
    requires |w| >= 5
    requires w[0] == Value(Shifted(), C("A", 1, 1), 0, 0, 0) && w[1] == Value(Shifted(), C("B", 2, 1), 0, 1, 1)
    requires w[2] == Value(Shifted(), C("K", 2, 1), 0, 2, 2) && w[3] == Value(Shifted(), C("C", 2, 1), 1, 0, 0)
    requires w[4] == Value(Shifted(), C("D", 1, 1), 2, 0, 2)
    ensures !GapFree(w)
  {
    assert forall k :: 0 <= k < 4 ==> !Covers(w[k], 2, 1);
    assert RowStartAt(w, 4) == 0 && 1 < w[4].column && w[4].row == 2;
    assert !CoveredBefore(w, 4, 1);
  }

  /** As written, a stored row with no cell makes the walk throw; corrected, it is passed over. */
  lemma EmptyRowThrows()
    ensures Walk(Table([[C("A", 1, 1)], []], None, None, map[]), 0, 0, AsWritten).threw
    ensures Walk(Table([[C("A", 1, 1)], []], None, None, map[]), 0, 0, Corrected)
      == Walked([Value(Table([[C("A", 1, 1)], []], None, None, map[]), C("A", 1, 1), 0, 0, 0)], false)
  {
    var t := Table([[C("A", 1, 1)], []], None, None, map[]);
    var a := Cursor(0, 1, 0, Some(C("A", 1, 1)), map[]);
    assert NextSpec(t, 0, 0, AsWritten, Start()) == (Yield(Value(t, C("A", 1, 1), 0, 0, 0)), a);
    var n := Cursor(1, 0, 0, None, map[]);
    assert NextPass(t, 0, 0, AsWritten, a) == Again(n);
    assert NextPass(t, 0, 0, AsWritten, n) == Finish(Throws, n);
    assert NextSpec(t, 0, 0, Corrected, Start()) == (Yield(Value(t, C("A", 1, 1), 0, 0, 0)), a);
    assert NextPass(t, 0, 0, Corrected, a) == Again(n);
    assert NextPass(t, 0, 0, Corrected, n) == Again(Cursor(2, 0, 0, None, map[]));
  }
}
