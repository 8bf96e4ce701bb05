/**
 * The plain lookup table of the lookup range check: one column whose row i
 * holds i, for every i below 2^NUM_BITS.
 */
module ValueTable {
  import opened Wrappers
  import opened Field
  import opened Circuit

  datatype RangeCheckTable = RangeCheckTable(value: TableColumn)

  /** `RangeCheckTable::configure`: one fresh table column. */
  function Configure(cs: ConstraintSystem): (ConstraintSystem, RangeCheckTable) {
    var (cs1, value) := LookupTableColumn(cs);
    (cs1, RangeCheckTable(value))
  }

  /** The table cells after `load` has written its first n rows on top of `cells`. */
  function Loaded(cells: TableCells, table: RangeCheckTable, n: nat): TableCells {
    if n == 0 then cells else Loaded(cells, table, n - 1)[(table.value, n - 1) := n - 1]
  }

  /** The offsets `load` writes, in order. */
  function WriteLog(table: RangeCheckTable, n: nat): seq<(TableColumn, nat)> {
    if n == 0 then [] else WriteLog(table, n - 1) + [(table.value, n - 1)]
  }

  /** None of the value cells of rows from .. to-1 has been written. */
  predicate Untouched(table: RangeCheckTable, cells: TableCells, from: nat, to: nat) {
    forall i :: from <= i < to ==> (table.value, i) !in cells
  }

  /**
   * `RangeCheckTable::load` with NUM_BITS = numBits: for i in 0 .. 2^numBits
   * write i at offset i. A cell already written stops the load with its error.
   */
  method Load(table: RangeCheckTable, t: TableLayouter, numBits: nat) returns (res: Outcome<CircuitError>)
    requires numBits < 64
    modifies t
    ensures res.Pass? <==> Untouched(table, old(t.cells), 0, Pow2(numBits))
    ensures res.Pass? ==> t.cells == Loaded(old(t.cells), table, Pow2(numBits))
    ensures res.Pass? ==> t.writes == old(t.writes) + WriteLog(table, Pow2(numBits))
  {
    res := LoadRows(table, t, Pow2(numBits));
  }

  /** The loop of `load` over rows 0 .. n-1, with `offset` tracking the row. */
  method LoadRows(table: RangeCheckTable, t: TableLayouter, n: nat) returns (res: Outcome<CircuitError>)
    modifies t
    ensures res.Pass? <==> Untouched(table, old(t.cells), 0, n)
    ensures res.Pass? ==> t.cells == Loaded(old(t.cells), table, n)
    ensures res.Pass? ==> t.writes == old(t.writes) + WriteLog(table, n)
  {
    var offset: nat := 0;
    var i: nat := 0;
    while i < n
      invariant i <= n && offset == i
      invariant t.cells == Loaded(old(t.cells), table, i)
      invariant t.writes == old(t.writes) + WriteLog(table, i)
      invariant Untouched(table, old(t.cells), 0, i)
      decreases n - i
    {
      LoadedAbove(old(t.cells), table, i, i);
      var r := t.AssignCell(table.value, offset, i);
      if r.Fail? {
        assert (table.value, i) in old(t.cells);
        return r;
      }
      offset := offset + 1;
      i := i + 1;
    }
    res := Pass;
  }

  /** Loading n rows leaves the cells of rows n and above as they were. */
  lemma {:induction false} LoadedAbove(cells: TableCells, table: RangeCheckTable, n: nat, i: nat)
    requires i >= n
    ensures (table.value, i) in Loaded(cells, table, n) <==> (table.value, i) in cells
  {
    if n > 0 {
      LoadedAbove(cells, table, n - 1, i);
    }
  }

  /** The table contents: n rows loaded on an empty table. */
  function Rows(table: RangeCheckTable, n: nat): TableCells {
    Loaded(map[], table, n)
  }

  /** The cells written are exactly the value cells at offsets 0 .. n-1, and offset i holds i. */
  lemma {:induction false} RowsSpec(table: RangeCheckTable, n: nat)
    ensures forall c: TableColumn, i: nat :: (c, i) in Rows(table, n) <==> c == table.value && i < n
    ensures forall i: nat :: i < n ==> Rows(table, n)[(table.value, i)] == i
  {
    if n > 0 {
      RowsSpec(table, n - 1);
      var last: nat := n - 1;
      assert Rows(table, n) == Rows(table, last)[(table.value, last) := last];
    }
  }

  /** The values in the table are exactly 0 .. n-1. */
  lemma ValueSet(table: RangeCheckTable, n: nat, x: nat)
    ensures (exists i :: (table.value, i) in Rows(table, n) && Rows(table, n)[(table.value, i)] == x) <==> x < n
  {
    RowsSpec(table, n);
    if x < n {
      assert (table.value, x) in Rows(table, n);
    }
  }

  /** 3 bits give the 8 values 0 .. 7. */
  lemma ThreeBits(table: RangeCheckTable, x: nat)
    ensures (exists i :: (table.value, i) in Rows(table, Pow2(3)) && Rows(table, Pow2(3))[(table.value, i)] == x)
            <==> x < 8
  {
    assert Pow2(3) == 8;
    ValueSet(table, 8, x);
  }

  /** One write per row, each offset 0 .. n-1 exactly once, in increasing order. */
  lemma {:induction false} WriteLogOffsets(table: RangeCheckTable, n: nat)
    ensures |WriteLog(table, n)| == n
    ensures forall k :: 0 <= k < n ==> WriteLog(table, n)[k] == (table.value, k)
  {
    if n > 0 {
      WriteLogOffsets(table, n - 1);
      var prev := WriteLog(table, n - 1);
      assert WriteLog(table, n) == prev + [(table.value, n - 1)];
    }
  }
}
