/**
 * `TableUtils.getCellLocation`: the visual (row, column) of a stored cell, read off the full
 * walk of its table. The lemmas here make the walk usable as a map from cells to places: every
 * stored cell has exactly one value, and a walk restricted to some rows agrees with it.
 */
module CellLocation {
  import opened Wrappers
  import opened TableModel
  import opened TableWalker
  import opened WalkerProperties

  /** The cell element a value stands for. */
  function AddrOf(v: WalkerValue): Addr {
    Addr(v.row, v.index)
  }

  /** `tableMap.find( value => value.cell === tableCell )`, as an index. */
  function IndexOf(w: seq<WalkerValue>, a: Addr): (r: Option<nat>)
    ensures r.Some? ==> r.value < |w| && AddrOf(w[r.value]) == a
    ensures r.Some? ==> forall j :: 0 <= j < r.value ==> AddrOf(w[j]) != a
    ensures r.None? ==> forall j :: 0 <= j < |w| ==> AddrOf(w[j]) != a
  {
    if w == [] then None
    else if AddrOf(w[0]) == a then Some(0)
    else match IndexOf(w[1..], a)
      case None => None
      case Some(i) => Some(i + 1)
  }

  /** The value of `a` in the full walk: `getCellLocation` returns its `row` and `column`. */
  function Location(t: Table, a: Addr): (r: Option<WalkerValue>)
    ensures r.Some? ==> AddrOf(r.value) == a
  {
    var w := Walk(t, 0, 0, Corrected).values;
    match IndexOf(w, a)
    case None => None
    case Some(i) => Some(w[i])
  }

  // ----- Addresses in storage order ------------------------------------------------------

  /** `a` comes before `b` in storage order. */
  predicate Before(a: Addr, b: Addr) {
    a.row < b.row || (a.row == b.row && a.index < b.index)
  }

  lemma {:induction false} AddrsOfIndex(w: seq<WalkerValue>)
    ensures |AddrsOf(w)| == |w|
    ensures forall k :: 0 <= k < |w| ==> AddrsOf(w)[k] == AddrOf(w[k])
  {
    if w != [] {
      AddrsOfIndex(w[1..]);
    }
  }

  /** The addresses from (row, index) on are exactly the valid ones at or after it. */
  lemma {:induction false} AddressesFromMembers(t: Table, row: nat, index: nat)
    ensures forall a :: a in AddressesFrom(t, row, index) <==>
      ValidAddr(t, a) && (a.row > row || (a.row == row && a.index >= index))
    decreases |t.rows| - row, if row < |t.rows| && index <= |t.rows[row]| then |t.rows[row]| - index else 0
  {
    if row < |t.rows| {
      if index >= |t.rows[row]| {
        AddressesFromMembers(t, row + 1, 0);
      } else {
        AddressesFromMembers(t, row, index + 1);
      }
    }
  }

  lemma {:induction false} AddressesFromSorted(t: Table, row: nat, index: nat)
    ensures var a := AddressesFrom(t, row, index);
      forall p, q :: 0 <= p < q < |a| ==> Before(a[p], a[q])
    decreases |t.rows| - row, if row < |t.rows| && index <= |t.rows[row]| then |t.rows[row]| - index else 0
  {
    if row < |t.rows| {
      if index >= |t.rows[row]| {
        AddressesFromSorted(t, row + 1, 0);
        AddressesRowEnd(t, row, index);
      } else {
        AddressesFromSorted(t, row, index + 1);
        AddressesFromMembers(t, row, index + 1);
        AddressesCell(t, row, index);
        var a := AddressesFrom(t, row, index);
        var rest := AddressesFrom(t, row, index + 1);
        forall p, q | 0 <= p < q < |a|
          ensures Before(a[p], a[q])
        {
          if p == 0 {
            assert a[q] == rest[q - 1] && a[q] in rest;
          } else {
            assert a[p] == rest[p - 1] && a[q] == rest[q - 1];
            assert Before(rest[p - 1], rest[q - 1]);
          }
        }
      }
    }
  }

  /** The address right before a cell that is not first in its row is its left sibling. */
  lemma {:induction false} AddressesFromSiblings(t: Table, row: nat, index: nat)
    ensures var a := AddressesFrom(t, row, index);
      forall p :: 0 < p < |a| && a[p].index > 0 ==> a[p - 1] == Addr(a[p].row, a[p].index - 1)
    decreases |t.rows| - row, if row < |t.rows| && index <= |t.rows[row]| then |t.rows[row]| - index else 0
  {
    if row < |t.rows| {
      if index >= |t.rows[row]| {
        AddressesFromSiblings(t, row + 1, 0);
        AddressesRowEnd(t, row, index);
      } else {
        AddressesFromSiblings(t, row, index + 1);
        AddressesCell(t, row, index);
        var a := AddressesFrom(t, row, index);
        var rest := AddressesFrom(t, row, index + 1);
        if |rest| > 0 {
          AddressesFromFirst(t, row, index + 1);
        }
        forall p | 0 < p < |a| && a[p].index > 0
          ensures a[p - 1] == Addr(a[p].row, a[p].index - 1)
        {
          if p > 1 {
            assert a[p] == rest[p - 1] && a[p - 1] == rest[p - 2];
          }
        }
      }
    }
  }

  /** The first address from (row, index) on is (row, index) itself or starts a later row. */
  lemma {:induction false} AddressesFromFirst(t: Table, row: nat, index: nat)
    requires |AddressesFrom(t, row, index)| > 0
    ensures var a := AddressesFrom(t, row, index)[0];
      a == Addr(row, index) || (a.row > row && a.index == 0)
    decreases |t.rows| - row, if row < |t.rows| && index <= |t.rows[row]| then |t.rows[row]| - index else 0
  {
    if row < |t.rows| && index >= |t.rows[row]| {
      AddressesFromFirst(t, row + 1, 0);
      AddressesRowEnd(t, row, index);
    }
  }

  // ----- The full walk as a map ----------------------------------------------------------

  /** The full corrected walk has one value per stored cell, in storage order. */
  lemma FullWalk(t: Table)
    ensures var w := Walk(t, 0, 0, Corrected).values;
      && (forall k :: 0 <= k < |w| ==> ValidAddr(t, AddrOf(w[k])))
      && (forall p, q :: 0 <= p < q < |w| ==> Before(AddrOf(w[p]), AddrOf(w[q])))
      && (forall a :: ValidAddr(t, a) ==> exists k :: 0 <= k < |w| && AddrOf(w[k]) == a)
      && (forall k :: 0 < k < |w| && w[k].index > 0 ==> AddrOf(w[k - 1]) == Addr(w[k].row, w[k].index - 1))
  {
    var w := Walk(t, 0, 0, Corrected).values;
    WalkInStorageOrder(t, 0, 0, Corrected);
    AllInRange(Addresses(t));
    AllAddresses(t, w);
  }

  lemma AllAddresses(t: Table, w: seq<WalkerValue>)
    requires AddrsOf(w) == Addresses(t)
    ensures forall k :: 0 <= k < |w| ==> ValidAddr(t, AddrOf(w[k]))
    ensures forall p, q :: 0 <= p < q < |w| ==> Before(AddrOf(w[p]), AddrOf(w[q]))
    ensures forall a :: ValidAddr(t, a) ==> exists k :: 0 <= k < |w| && AddrOf(w[k]) == a
    ensures forall k :: 0 < k < |w| && w[k].index > 0 ==> AddrOf(w[k - 1]) == Addr(w[k].row, w[k].index - 1)
  {
    AllValid(t, w);
    AllSorted(t, w);
    AllPresent(t, w);
    AllSiblings(t, w);
  }

  lemma AllValid(t: Table, w: seq<WalkerValue>)
    requires AddrsOf(w) == Addresses(t)
    ensures forall k :: 0 <= k < |w| ==> ValidAddr(t, AddrOf(w[k]))
  {
    AddrsOfIndex(w);
    AddressesFromMembers(t, 0, 0);
    forall k | 0 <= k < |w|
      ensures ValidAddr(t, AddrOf(w[k]))
    {
      assert AddrsOf(w)[k] in AddrsOf(w);
    }
  }

  lemma AllSorted(t: Table, w: seq<WalkerValue>)
    requires AddrsOf(w) == Addresses(t)
    ensures forall p, q :: 0 <= p < q < |w| ==> Before(AddrOf(w[p]), AddrOf(w[q]))
  {
    AddrsOfIndex(w);
    AddressesFromSorted(t, 0, 0);
  }

  lemma AllPresent(t: Table, w: seq<WalkerValue>)
    requires AddrsOf(w) == Addresses(t)
    ensures forall a :: ValidAddr(t, a) ==> exists k :: 0 <= k < |w| && AddrOf(w[k]) == a
  {
    forall x | ValidAddr(t, x)
      ensures exists k :: 0 <= k < |w| && AddrOf(w[k]) == x
    {
      Present(t, w, x);
    }
  }

  lemma Present(t: Table, w: seq<WalkerValue>, x: Addr)
    requires AddrsOf(w) == Addresses(t) && ValidAddr(t, x)
    ensures exists k :: 0 <= k < |w| && AddrOf(w[k]) == x
  {
    Stored(t, x);
    Found(w, x);
    FoundAt(w, x);
  }

  lemma Stored(t: Table, x: Addr)
    requires ValidAddr(t, x)
    ensures x in Addresses(t)
  {
    AddressesFromMembers(t, 0, 0);
  }

  lemma FoundAt(w: seq<WalkerValue>, x: Addr)
    requires IndexOf(w, x).Some?
    ensures exists k :: 0 <= k < |w| && AddrOf(w[k]) == x
  {
    var k := IndexOf(w, x).value;
    assert AddrOf(w[k]) == x;
  }

  /** An address listed by `AddrsOf( w )` is found in `w`. */
  lemma {:induction false} Found(w: seq<WalkerValue>, x: Addr)
    requires x in AddrsOf(w)
    ensures IndexOf(w, x).Some?
  {
    if AddrOf(w[0]) != x {
      Found(w[1..], x);
    }
  }

  lemma AllSiblings(t: Table, w: seq<WalkerValue>)
    requires AddrsOf(w) == Addresses(t)
    ensures forall k :: 0 < k < |w| && w[k].index > 0 ==> AddrOf(w[k - 1]) == Addr(w[k].row, w[k].index - 1)
  {
    AddrsOfIndex(w);
    AddressesFromSiblings(t, 0, 0);
  }

  /**
   * Every stored cell has a location: the value of that cell, with its spans read as `|| 1`
   * reads them.
   */
  lemma LocationOf(t: Table, a: Addr)
    requires ValidAddr(t, a)
    ensures Location(t, a).Some?
    ensures var v := Location(t, a).value;
      && AddrOf(v) == a && v.cell == CellAt(t, a)
      && v.rowspan == Span(CellAt(t, a).rowspan) && v.colspan == Span(CellAt(t, a).colspan)
  {
    FullWalk(t);
    WalkValues(t, 0, 0, Corrected);
    var w := Walk(t, 0, 0, Corrected).values;
    var k :| 0 <= k < |w| && AddrOf(w[k]) == a;
  }

  /**
   * `tableUtils.getCellLocation( cell ).column`: the column the full walk gives the cell, which
   * is the column every corrected walk that reaches the cell gives it.
   */
  function ColumnOf(t: Table, a: Addr): (r: nat)
    requires ValidAddr(t, a)
    ensures exists v :: v in Walk(t, 0, 0, Corrected).values && AddrOf(v) == a && v.column == r
    ensures forall startRow, endRow, v ::
      v in Walk(t, startRow, endRow, Corrected).values && AddrOf(v) == a ==> v.column == r
  {
    LocationOf(t, a);
    EveryWalkLocates(t, a);
    Location(t, a).value.column
  }

  /** `RangedValueIsLocation` for every range at once. */
  lemma EveryWalkLocates(t: Table, a: Addr)
    ensures forall startRow, endRow, v ::
      v in Walk(t, startRow, endRow, Corrected).values && AddrOf(v) == a ==> Location(t, a) == Some(v)
  {
    forall startRow, endRow, v | v in Walk(t, startRow, endRow, Corrected).values && AddrOf(v) == a
      ensures Location(t, a) == Some(v)
    {
      RangedValueIsLocation(t, startRow, endRow, v);
    }
  }

  /** A cell that is not stored has no location. */
  lemma NoLocation(t: Table, a: Addr)
    requires !ValidAddr(t, a)
    ensures Location(t, a).None?
  {
    FullWalk(t);
  }

  lemma {:induction false} RowsInRangeMembers(startRow: nat, endRow: nat, w: seq<WalkerValue>)
    ensures forall v :: v in RowsInRange(startRow, endRow, w) <==> v in w && InRange(startRow, endRow, v.row)
  {
    if w != [] {
      RowsInRangeMembers(startRow, endRow, w[1..]);
      assert w == [w[0]] + w[1..];
    }
  }

  /**
   * A value of any corrected walk, whatever its range, is the location of its cell: the
   * columns do not depend on `startRow` or `endRow`.
   */
  lemma RangedValueIsLocation(t: Table, startRow: nat, endRow: nat, v: WalkerValue)
    requires v in Walk(t, startRow, endRow, Corrected).values
    ensures Location(t, AddrOf(v)) == Some(v)
  {
    var w := Walk(t, 0, 0, Corrected).values;
    RangedWalk(t, startRow, endRow, Corrected);
    RowsInRangeMembers(startRow, endRow, w);
    FullWalk(t);
    var j :| 0 <= j < |w| && w[j] == v;
    var i := IndexOf(w, AddrOf(v));
    assert i.Some? && i.value <= j;
  }

  /** A stored cell whose row is in range has its value in the ranged corrected walk. */
  lemma InRangedWalk(t: Table, startRow: nat, endRow: nat, a: Addr)
    requires ValidAddr(t, a) && InRange(startRow, endRow, a.row)
    ensures IndexOf(Walk(t, startRow, endRow, Corrected).values, a).Some?
  {
    LocationOf(t, a);
    var v := Location(t, a).value;
    RangedWalk(t, startRow, endRow, Corrected);
    RowsInRangeMembers(startRow, endRow, Walk(t, 0, 0, Corrected).values);
    var w := Walk(t, startRow, endRow, Corrected).values;
    assert v in w;
    var k :| 0 <= k < |w| && w[k] == v;
  }

  /**
   * Two stored neighbours in a row: the right one starts at or right of the left one's end,
   * and where it starts further right every column in between is held by a cell from a row
   * above.
   */
  lemma SiblingColumns(t: Table, left: Addr)
    requires ValidAddr(t, left) && left.index + 1 < |t.rows[left.row]|
    ensures Location(t, left).Some? && Location(t, Addr(left.row, left.index + 1)).Some?
    ensures var l, r := Location(t, left).value, Location(t, Addr(left.row, left.index + 1)).value;
      && r.column >= l.column + l.colspan
      && forall x :: l.column + l.colspan <= x < r.column ==> CoveredBy(Walk(t, 0, 0, Corrected).values, left.row, x)
  {
    var right := Addr(left.row, left.index + 1);
    LocationOf(t, left);
    LocationOf(t, right);
    FullWalk(t);
    var w := Walk(t, 0, 0, Corrected).values;
    var k := IndexOf(w, right).value;
    assert k > 0 && AddrOf(w[k - 1]) == left;
    assert Location(t, left).value == w[k - 1] by {
      RangedValueIsLocation(t, 0, 0, w[k - 1]);
    }
    WalkColumns(t, 0, 0, Corrected);
    CorrectedWalkGapFree(t);
    forall x | w[k - 1].column + w[k - 1].colspan <= x < w[k].column
      ensures CoveredBy(w, left.row, x)
    {
      assert RowStartAt(w, k) <= x;
      assert CoveredBefore(w, k, x);
      var m :| 0 <= m < k && Covers(w[m], w[k].row, x);
      assert w[m] in w;
    }
  }

  /** Keeping only the values of some rows keeps them in storage order. */
  lemma {:induction false} RowsInRangeSorted(startRow: nat, endRow: nat, w: seq<WalkerValue>)
    requires forall p, q :: 0 <= p < q < |w| ==> Before(AddrOf(w[p]), AddrOf(w[q]))
    ensures forall p, q :: 0 <= p < q < |RowsInRange(startRow, endRow, w)| ==>
      Before(AddrOf(RowsInRange(startRow, endRow, w)[p]), AddrOf(RowsInRange(startRow, endRow, w)[q]))
  {
    if w != [] {
      assert forall p, q :: 0 <= p < q < |w[1..]| ==> w[1..][p] == w[p + 1] && w[1..][q] == w[q + 1];
      RowsInRangeSorted(startRow, endRow, w[1..]);
      RowsInRangeMembers(startRow, endRow, w[1..]);
      var r := RowsInRange(startRow, endRow, w);
      var rest := RowsInRange(startRow, endRow, w[1..]);
      if InRange(startRow, endRow, w[0].row) {
        forall p, q | 0 <= p < q < |r|
          ensures Before(AddrOf(r[p]), AddrOf(r[q]))
        {
          assert r[q] == rest[q - 1] && rest[q - 1] in w[1..];
          if p > 0 {
            assert r[p] == rest[p - 1];
            assert Before(AddrOf(rest[p - 1]), AddrOf(rest[q - 1]));
          } else {
            var j :| 0 <= j < |w[1..]| && w[1..][j] == rest[q - 1];
            assert w[1..][j] == w[j + 1];
            assert Before(AddrOf(w[0]), AddrOf(w[j + 1]));
          }
        }
      } else {
        assert r == rest;
      }
    }
  }

  /**
   * A corrected walk with range options lists each stored cell of the rows in range once, in
   * storage order, and nothing else.
   */
  lemma RangedWalkSorted(t: Table, startRow: nat, endRow: nat)
    ensures var w := Walk(t, startRow, endRow, Corrected).values;
      && (forall p, q :: 0 <= p < q < |w| ==> Before(AddrOf(w[p]), AddrOf(w[q])))
      && (forall k :: 0 <= k < |w| ==> InRange(startRow, endRow, w[k].row))
  {
    var full := Walk(t, 0, 0, Corrected).values;
    FullWalk(t);
    RangedWalk(t, startRow, endRow, Corrected);
    RowsInRangeSorted(startRow, endRow, full);
    RowsInRangeMembers(startRow, endRow, full);
    var w := Walk(t, startRow, endRow, Corrected).values;
    forall k | 0 <= k < |w|
      ensures InRange(startRow, endRow, w[k].row)
    {
      assert w[k] in w;
    }
  }
}
