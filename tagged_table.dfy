/**
 * The tagged lookup table of the decomposition range check: row i holds the
 * pair (i, log2 i) for every i below 2^NUM_BITS. Row 0 holds (0, 0), which
 * is also the tuple a row with the lookup selector off presents.
 */
module TaggedTable {
  import opened Wrappers
  import opened Field
  import opened Circuit

  datatype RangeCheckTable = RangeCheckTable(value: TableColumn, numBits: TableColumn)

  /** `RangeCheckTable::configure`: two fresh table columns. */
  function Configure(cs: ConstraintSystem): (ConstraintSystem, RangeCheckTable) {
    var (cs1, value) := LookupTableColumn(cs);
    var (cs2, numBits) := LookupTableColumn(cs1);
    (cs2, RangeCheckTable(value, numBits))
  }

  /** The floor of the base-2 logarithm, with 0 for 0: the exponent of the highest set bit. */
  function FloorLog2(x: nat): (r: nat)
    ensures x >= 1 ==> Pow2(r) <= x < Pow2(r + 1)
    ensures x <= 1 ==> r == 0
  {
    if x <= 1 then 0
    else
      var r := 1 + FloorLog2(x / 2);
      assert Pow2(r) == 2 * Pow2(r - 1);
      assert Pow2(r + 1) == 2 * Pow2(r);
      r
  }

  /** The bounds determine the logarithm: there is exactly one r with 2^r <= x < 2^(r+1). */
  lemma FloorLog2Unique(x: nat, r: nat)
    requires Pow2(r) <= x < Pow2(r + 1)
    ensures r == FloorLog2(x)
  {
    var s := FloorLog2(x);
    if r < s {
      Pow2Monotone(r + 1, s);
    } else if s < r {
      Pow2Monotone(s + 1, r);
    }
  }

  /** `log2`: halve x until it is at most 1, counting the halvings. */
  method Log2(x: nat) returns (result: nat)
    ensures result == FloorLog2(x)
  {
    var y := x;
    result := 0;
    while y > 1
      invariant x == 0 ==> y == 0 && result == 0
      invariant x >= 1 ==> y >= 1 && Pow2(result) * y <= x < Pow2(result) * (y + 1)
      decreases y
    {
      if x >= 1 {
        HalvingStep(x, y, result);
      }
      y := y / 2;
      result := result + 1;
    }
    if x >= 1 {
      assert y == 1;
      FloorLog2Unique(x, result);
    }
  }

  lemma HalvingStep(x: nat, y: nat, r: nat)
    requires y > 1 && Pow2(r) * y <= x < Pow2(r) * (y + 1)
    ensures Pow2(r + 1) * (y / 2) <= x < Pow2(r + 1) * (y / 2 + 1)
  {
    var h := y / 2;
    assert y == 2 * h || y == 2 * h + 1;
    assert Pow2(r + 1) == 2 * Pow2(r);
    var q := Pow2(r);
    assert q * (2 * h) <= q * y;
    assert q * (y + 1) <= q * (2 * h + 2);
    assert q * (2 * h) == (2 * q) * h;
    assert q * (2 * h + 2) == (2 * q) * (h + 1);
  }

  /** The table cells after `load` has written its first n rows on top of `cells`. */
  function Loaded(cells: TableCells, table: RangeCheckTable, n: nat): TableCells {
    if n == 0 then cells
    else Loaded(cells, table, n - 1)[(table.value, n - 1) := n - 1][(table.numBits, n - 1) := FloorLog2(n - 1)]
  }

  /** The cells `load` writes, in order: value then num_bits, row by row. */
  function WriteLog(table: RangeCheckTable, n: nat): seq<(TableColumn, nat)> {
    if n == 0 then [] else WriteLog(table, n - 1) + [(table.value, n - 1), (table.numBits, n - 1)]
  }

  /** None of the cells of rows from .. to-1 has been written. */
  predicate Untouched(table: RangeCheckTable, cells: TableCells, from: nat, to: nat) {
    forall i :: from <= i < to ==> (table.value, i) !in cells && (table.numBits, i) !in cells
  }

  /**
   * `RangeCheckTable::load` with NUM_BITS = numBits: for i in 0 .. 2^numBits
   * write i to the value column and log2 i to the num_bits column at offset
   * i. The first write to a cell already written stops the load with its error.
   */
  method Load(table: RangeCheckTable, t: TableLayouter, numBits: nat) returns (res: Outcome<CircuitError>)
    requires numBits < 64
    modifies t
    ensures res.Pass? <==> table.value != table.numBits && Untouched(table, old(t.cells), 0, Pow2(numBits))
    ensures res.Pass? ==> t.cells == Loaded(old(t.cells), table, Pow2(numBits))
    ensures res.Pass? ==> t.writes == old(t.writes) + WriteLog(table, Pow2(numBits))
  {
    res := LoadRows(table, t, Pow2(numBits));
  }

  /** The loop of `load` over the rows 0 .. n-1, with `offset` tracking the row. */
  method LoadRows(table: RangeCheckTable, t: TableLayouter, n: nat) returns (res: Outcome<CircuitError>)
    requires n > 0
    modifies t
    ensures res.Pass? <==> table.value != table.numBits && Untouched(table, old(t.cells), 0, n)
    ensures res.Pass? ==> t.cells == Loaded(old(t.cells), table, n)
    ensures res.Pass? ==> t.writes == old(t.writes) + WriteLog(table, n)
  {
    var offset: nat := 0;
    var i: nat := 0;
    while i < n
      invariant i <= n && offset == i
      invariant t.cells == Loaded(old(t.cells), table, i)
      invariant t.writes == old(t.writes) + WriteLog(table, i)
      invariant i > 0 ==> table.value != table.numBits
      invariant Untouched(table, old(t.cells), 0, i)
      decreases n - i
    {
      LoadedAbove(old(t.cells), table, i, i);
      var r := LoadRow(table, t, offset, i);
      if r.Fail? {
        assert table.value == table.numBits || (table.value, i) in old(t.cells) || (table.numBits, i) in old(t.cells);
        return r;
      }
      assert WriteLog(table, i + 1) == WriteLog(table, i) + [(table.value, i), (table.numBits, i)];
      offset := offset + 1;
      i := i + 1;
    }
    res := Pass;
  }

  /** One iteration of `load`: the value cell, then log2 of it in the num_bits cell, at `offset`. */
  method LoadRow(table: RangeCheckTable, t: TableLayouter, offset: nat, i: nat) returns (res: Outcome<CircuitError>)
    modifies t
    ensures res.Pass? <==> table.value != table.numBits && (table.value, offset) !in old(t.cells)
                           && (table.numBits, offset) !in old(t.cells)
    ensures res.Pass? ==> t.cells == old(t.cells)[(table.value, offset) := i][(table.numBits, offset) := FloorLog2(i)]
    ensures res.Pass? ==> t.writes == old(t.writes) + [(table.value, offset), (table.numBits, offset)]
  {
    res := t.AssignCell(table.value, offset, i);
    if res.Fail? {
      return;
    }
    var bits := Log2(i);
    res := t.AssignCell(table.numBits, offset, bits);
  }

  /** Loading n rows leaves the cells of rows n and above as they were. */
  lemma {:induction false} LoadedAbove(cells: TableCells, table: RangeCheckTable, n: nat, i: nat)
    requires i >= n
    ensures (table.value, i) in Loaded(cells, table, n) <==> (table.value, i) in cells
    ensures (table.numBits, i) in Loaded(cells, table, n) <==> (table.numBits, i) in cells
  {
    if n > 0 {
      LoadedAbove(cells, table, n - 1, i);
    }
  }

  /** The table contents: the first n rows loaded on an empty table. */
  function Rows(table: RangeCheckTable, n: nat): TableCells {
    Loaded(map[], table, n)
  }

  /** Which cells the first n rows occupy. */
  lemma {:induction false} RowsKeys(table: RangeCheckTable, n: nat)
    ensures forall c: TableColumn, i: nat :: (c, i) in Rows(table, n) <==> (c == table.value || c == table.numBits) && i < n
  {
    if n > 0 {
      RowsKeys(table, n - 1);
      var last: nat := n - 1;
      assert Rows(table, n) == Rows(table, last)[(table.value, last) := last][(table.numBits, last) := FloorLog2(last)];
    }
  }

  /** After the load, row i holds (i, log2 i) for every i below the row count. */
  lemma {:induction false} RowsContents(table: RangeCheckTable, n: nat, i: nat)
    requires table.value != table.numBits && i < n
    ensures (table.value, i) in Rows(table, n) && Rows(table, n)[(table.value, i)] == i
    ensures (table.numBits, i) in Rows(table, n) && Rows(table, n)[(table.numBits, i)] == FloorLog2(i)
  {
    var prev: TableCells, last: nat := Rows(table, n - 1), n - 1;
    assert Rows(table, n) == prev[(table.value, last) := last][(table.numBits, last) := FloorLog2(last)];
    if i < n - 1 {
      RowsContents(table, n - 1, i);
    }
  }

  /** Row 0 is (0, 0). */
  lemma RowZero(table: RangeCheckTable, n: nat)
    requires table.value != table.numBits && n > 0
    ensures (table.value, 0) in Rows(table, n) && Rows(table, n)[(table.value, 0)] == 0
    ensures (table.numBits, 0) in Rows(table, n) && Rows(table, n)[(table.numBits, 0)] == 0
  {
    RowsContents(table, n, 0);
  }

  /** The values in the value column are exactly 0 .. n-1. */
  lemma ValueSet(table: RangeCheckTable, n: nat, x: nat)
    requires table.value != table.numBits
    ensures (exists i :: (table.value, i) in Rows(table, n) && Rows(table, n)[(table.value, i)] == x) <==> x < n
  {
    RowsKeys(table, n);
    if x < n {
      RowsContents(table, n, x);
    }
    forall i | (table.value, i) in Rows(table, n)
      ensures Rows(table, n)[(table.value, i)] == i
    {
      RowsContents(table, n, i);
    }
  }

  /** The load makes two writes per row and never writes a cell twice. */
  lemma {:induction false} WriteLogDistinct(table: RangeCheckTable, n: nat)
    requires table.value != table.numBits
    ensures |WriteLog(table, n)| == 2 * n
    ensures forall a, b :: 0 <= a < b < |WriteLog(table, n)| ==> WriteLog(table, n)[a] != WriteLog(table, n)[b]
    ensures forall k :: 0 <= k < |WriteLog(table, n)| ==> WriteLog(table, n)[k].1 == k / 2
  {
    if n > 0 {
      WriteLogDistinct(table, n - 1);
      var prev := WriteLog(table, n - 1);
      var log := WriteLog(table, n);
      assert log == prev + [(table.value, n - 1), (table.numBits, n - 1)];
      forall k | 0 <= k < |log|
        ensures log[k].1 == k / 2
      {
        if k < |prev| {
          assert log[k] == prev[k];
        }
      }
    }
  }
}
