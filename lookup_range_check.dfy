/**
 * Range check by a two-column lookup: on a row with the complex selector on,
 * the pair (value, num_bits) must be a row (i, log2 i) of the tagged table.
 * The table is always built for 3 bits; the RANGE parameter of the
 * configuration plays no part in it.
 */
module LookupRangeCheck {
  import opened Wrappers
  import opened Field
  import opened Circuit
  import TaggedTable

  /** The table is built for this many bits whatever RANGE is. */
  const TableBits: nat := 3

  datatype RangeCheckConfig = RangeCheckConfig(
    value: Column, numBits: Column, selector: Selector, table: TaggedTable.RangeCheckTable)

  /** The two lookup inputs: `q_lookup * value` into the value column, `q_lookup * num_bits` into num_bits. */
  function LookupInputs(s: Selector, value: Column, numBits: Column, table: TaggedTable.RangeCheckTable)
    : seq<(Expr, TableColumn)>
  {
    [(Product(Selected(s), Advice(value, 0)), table.value),
     (Product(Selected(s), Advice(numBits, 0)), table.numBits)]
  }

  /** `RangeCheckConfig::configure` */
  function Configure(cs: ConstraintSystem, value: Column, numBits: Column): (ConstraintSystem, RangeCheckConfig) {
    var (cs1, selector) := NewSelector(cs);
    var (cs2, table) := TaggedTable.Configure(cs1);
    var cs3 := AddLookup(cs2, LookupInputs(selector, value, numBits, table));
    (cs3, RangeCheckConfig(value, numBits, selector, table))
  }

  /** `RangeCheckConfig::assign`: enable the selector, write the value and `F::from(num_bits)`, all at offset 0. */
  method Assign(config: RangeCheckConfig, r: Region, value: nat, numBits: nat)
    modifies r
    ensures r.cells == old(r.cells)[(config.value, 0) := value][(config.numBits, 0) := numBits]
    ensures r.enabled == old(r.enabled) + {(config.selector, 0)}
  {
    r.Enable(config.selector, 0);
    r.AssignAdvice(config.value, 0, value);
    r.AssignAdvice(config.numBits, 0, numBits);
  }

  lemma EvalGated(p: Modulus, s: Selector, c: Column, w: Witness, row: int)
    ensures SelectorValue(w, s, row) == 1 ==> Eval(p, Product(Selected(s), Advice(c, 0)), w, row) == CellValue(w, c, row) % p
    ensures SelectorValue(w, s, row) == 0 ==> Eval(p, Product(Selected(s), Advice(c, 0)), w, row) == 0
  {
    MulIdentity(p, CellValue(w, c, row) % p);
    MulZero(p, CellValue(w, c, row) % p);
  }

  /** With the selector on, the lookup holds iff some table row holds the pair (value, num_bits). */
  lemma LookupOn(p: Modulus, s: Selector, value: Column, numBits: Column, table: TaggedTable.RangeCheckTable,
                 w: Witness, t: TableCells, row: int)
    requires SelectorValue(w, s, row) == 1
    ensures LookupHolds(p, Lookup(LookupInputs(s, value, numBits, table)), w, t, row)
            <==> exists trow: nat :: (table.value, trow) in t && (table.numBits, trow) in t
                   && CellValue(w, value, row) % p == FromInt(p, t[(table.value, trow)])
                   && CellValue(w, numBits, row) % p == FromInt(p, t[(table.numBits, trow)])
  {
    EvalGated(p, s, value, w, row);
    EvalGated(p, s, numBits, w, row);
    var lk := Lookup(LookupInputs(s, value, numBits, table));
    forall trow: nat
      ensures RowMatches(p, lk, w, t, row, trow)
              <==> (table.value, trow) in t && (table.numBits, trow) in t
                   && CellValue(w, value, row) % p == FromInt(p, t[(table.value, trow)])
                   && CellValue(w, numBits, row) % p == FromInt(p, t[(table.numBits, trow)])
    {
      if (table.value, trow) in t && (table.numBits, trow) in t
         && CellValue(w, value, row) % p == FromInt(p, t[(table.value, trow)])
         && CellValue(w, numBits, row) % p == FromInt(p, t[(table.numBits, trow)]) {
        assert forall k :: 0 <= k < 2 ==>
          (lk.inputs[k].1, trow) in t && Eval(p, lk.inputs[k].0, w, row) == FromInt(p, t[(lk.inputs[k].1, trow)]);
      }
      if RowMatches(p, lk, w, t, row, trow) {
        assert (lk.inputs[0].1, trow) in t && (lk.inputs[1].1, trow) in t;
      }
    }
  }

  /** With the selector off, both inputs are 0. */
  lemma LookupOff(p: Modulus, s: Selector, value: Column, numBits: Column, table: TaggedTable.RangeCheckTable,
                  w: Witness, row: int)
    requires SelectorValue(w, s, row) == 0
    ensures forall k :: 0 <= k < 2 ==> Eval(p, LookupInputs(s, value, numBits, table)[k].0, w, row) == 0
  {
    EvalGated(p, s, value, w, row);
    EvalGated(p, s, numBits, w, row);
  }

  /** Below the modulus, the logarithm is its own residue. */
  lemma SmallLog(p: Modulus, x: nat)
    requires x < p
    ensures TaggedTable.FloorLog2(x) < p && FromInt(p, TaggedTable.FloorLog2(x)) == TaggedTable.FloorLog2(x)
  {
    var r := TaggedTable.FloorLog2(x);
    if x >= 1 {
      Pow2Exceeds(r);
    }
    ModSmall(p, r);
  }

  /**
   * Against the loaded 3-bit table, with the selector on, the lookup holds
   * exactly when the value is below 8 and num_bits is its logarithm.
   */
  lemma LoadedLookupIff(p: Modulus, s: Selector, value: Column, numBits: Column, table: TaggedTable.RangeCheckTable,
                        w: Witness, row: int)
    requires p >= 8 && table.value != table.numBits
    requires SelectorValue(w, s, row) == 1
    ensures LookupHolds(p, Lookup(LookupInputs(s, value, numBits, table)), w, TaggedTable.Rows(table, 8), row)
            <==> CellValue(w, value, row) % p < 8
                 && CellValue(w, numBits, row) % p == TaggedTable.FloorLog2(CellValue(w, value, row) % p)
  {
    var t := TaggedTable.Rows(table, 8);
    var v, nb := CellValue(w, value, row) % p, CellValue(w, numBits, row) % p;
    LookupOn(p, s, value, numBits, table, w, t, row);
    TaggedTable.RowsKeys(table, 8);
    if v < 8 && nb == TaggedTable.FloorLog2(v) {
      TaggedTable.RowsContents(table, 8, v);
      ModSmall(p, v);
      SmallLog(p, v);
      assert (table.value, v) in t && (table.numBits, v) in t
             && v == FromInt(p, t[(table.value, v)]) && nb == FromInt(p, t[(table.numBits, v)]);
    }
    forall trow: nat | (table.value, trow) in t && (table.numBits, trow) in t
                        && v == FromInt(p, t[(table.value, trow)]) && nb == FromInt(p, t[(table.numBits, trow)])
      ensures v < 8 && nb == TaggedTable.FloorLog2(v)
    {
      TaggedTable.RowsContents(table, 8, trow);
      ModSmall(p, trow);
      SmallLog(p, trow);
    }
  }

  /** A row with the selector off passes: its inputs (0, 0) are the table's row 0. */
  lemma DisabledRowPasses(p: Modulus, s: Selector, value: Column, numBits: Column, table: TaggedTable.RangeCheckTable,
                          w: Witness, row: int)
    requires table.value != table.numBits
    requires SelectorValue(w, s, row) == 0
    ensures LookupHolds(p, Lookup(LookupInputs(s, value, numBits, table)), w, TaggedTable.Rows(table, 8), row)
  {
    var t := TaggedTable.Rows(table, 8);
    var lk := Lookup(LookupInputs(s, value, numBits, table));
    LookupOff(p, s, value, numBits, table, w, row);
    TaggedTable.RowZero(table, 8);
    assert FromInt(p, 0) == 0;
    assert RowMatches(p, lk, w, t, row, 0);
  }

  /** The test circuit's `configure`: two advice columns, then the range check on them. */
  function CircuitConfigure(cs: ConstraintSystem): (ConstraintSystem, RangeCheckConfig) {
    var (cs1, value) := AdviceColumn(cs);
    var (cs2, numBits) := AdviceColumn(cs1);
    Configure(cs2, value, numBits)
  }

  lemma CircuitLayout()
    ensures CircuitConfigure(EmptySystem()).1
            == RangeCheckConfig(Column(0), Column(1), Selector(0),
                                TaggedTable.RangeCheckTable(TableColumn(0), TableColumn(1)))
    ensures CircuitConfigure(EmptySystem()).0.lookups
            == [Lookup(LookupInputs(Selector(0), Column(0), Column(1),
                                    TaggedTable.RangeCheckTable(TableColumn(0), TableColumn(1))))]
  {
  }

  /** The witness `assign` leaves on a fresh region for the test circuit. */
  function AssignedWitness(value: nat, numBits: nat): Witness {
    Witness(map[(Column(0), 0) := value][(Column(1), 0) := numBits], {(Selector(0), 0)})
  }

  /**
   * The assigning half of the test circuit's `synthesize`: `assign` on a fresh
   * region, for the configuration the test circuit's `configure` builds.
   */
  method Synthesize(value: nat, numBits: nat) returns (w: Witness)
    ensures w == AssignedWitness(value, numBits)
  {
    var r := new Region();
    Assign(CircuitConfigure(EmptySystem()).1, r, value, numBits);
    w := r.State();
  }

  /**
   * The `range_check_test` test: for each i in 0 .. 8 with num_bits = log2 i, the
   * lookup holds on every row against the loaded 3-bit table.
   */
  lemma RangeCheckTest(p: Modulus, i: nat)
    requires p >= 8 && i < 8
    ensures forall row :: LookupHolds(p, CircuitConfigure(EmptySystem()).0.lookups[0],
                                      AssignedWitness(i, TaggedTable.FloorLog2(i)),
                                      TaggedTable.Rows(CircuitConfigure(EmptySystem()).1.table, Pow2(TableBits)), row)
  {
    CircuitLayout();
    assert Pow2(TableBits) == 8;
    var table := TaggedTable.RangeCheckTable(TableColumn(0), TableColumn(1));
    var w := AssignedWitness(i, TaggedTable.FloorLog2(i));
    forall row
      ensures LookupHolds(p, Lookup(LookupInputs(Selector(0), Column(0), Column(1), table)), w,
                          TaggedTable.Rows(table, 8), row)
    {
      if row == 0 {
        ModSmall(p, i);
        SmallLog(p, i);
        LoadedLookupIff(p, Selector(0), Column(0), Column(1), table, w, 0);
      } else {
        DisabledRowPasses(p, Selector(0), Column(0), Column(1), table, w, row);
      }
    }
  }
}
