/**
 * The part of the proving system the gadgets program against, reduced to
 * its meaning: columns, selectors, expressions over one row and its
 * neighbours, the gates and lookups a configuration registers, a region of
 * advice cells with its enabled selectors, and a write-once lookup table.
 */
module Circuit {
  import opened Wrappers
  import opened Field

  /** An advice column (`Column<Advice>`). */
  datatype Column = Column(index: nat)

  datatype Selector = Selector(index: nat)

  datatype TableColumn = TableColumn(index: nat)

  /** `Expression<F>`: a polynomial over the cells of a row and its neighbours. */
  datatype Expr =
    | Constant(c: int)
    | Selected(selector: Selector)
    | Advice(column: Column, rotation: int)
    | Negated(e: Expr)
    | Sum(left: Expr, right: Expr)
    | Product(left: Expr, right: Expr)
    | Scaled(e: Expr, factor: int)

  /** Subtraction of expressions is addition of the negation. */
  function Minus(a: Expr, b: Expr): Expr {
    Sum(a, Negated(b))
  }

  lemma EvalMinus(p: Modulus, a: Expr, b: Expr, w: Witness, row: int)
    ensures Eval(p, Minus(a, b), w, row) == Sub(p, Eval(p, a, w, row), Eval(p, b, w, row))
  {
    AddNeg(p, Eval(p, a, w, row), Eval(p, b, w, row));
  }

  /** `Constraints::with_selector`: each constraint multiplied by the selector. */
  function WithSelector(s: Selector, polys: seq<Expr>): (r: seq<Expr>)
    ensures |r| == |polys|
    ensures forall k :: 0 <= k < |r| ==> r[k] == Product(Selected(s), polys[k])
  {
    if polys == [] then [] else [Product(Selected(s), polys[0])] + WithSelector(s, polys[1..])
  }

  /** The values a witness assigns: advice cells by (column, row), and the enabled selectors. */
  datatype Witness = Witness(cells: map<(Column, int), nat>, enabled: set<(Selector, int)>)

  /** An advice cell nobody assigned reads as zero. */
  function CellValue(w: Witness, column: Column, row: int): nat {
    if (column, row) in w.cells then w.cells[(column, row)] else 0
  }

  function SelectorValue(w: Witness, s: Selector, row: int): nat {
    if (s, row) in w.enabled then 1 else 0
  }

  /** The value of an expression at a row, in F_p. */
  function Eval(p: Modulus, e: Expr, w: Witness, row: int): (r: nat)
    ensures r < p
  {
    match e
    case Constant(c) => FromInt(p, c)
    case Selected(s) => SelectorValue(w, s, row)
    case Advice(column, rotation) => FromInt(p, CellValue(w, column, row + rotation))
    case Negated(x) => Neg(p, Eval(p, x, w, row))
    case Sum(a, b) => Add(p, Eval(p, a, w, row), Eval(p, b, w, row))
    case Product(a, b) => Mul(p, Eval(p, a, w, row), Eval(p, b, w, row))
    case Scaled(x, f) => Mul(p, Eval(p, x, w, row), f)
  }

  /** `Expression::degree`. */
  function Degree(e: Expr): nat {
    match e
    case Constant(_) => 0
    case Selected(_) => 1
    case Advice(_, _) => 1
    case Negated(x) => Degree(x)
    case Sum(a, b) => if Degree(a) < Degree(b) then Degree(b) else Degree(a)
    case Product(a, b) => Degree(a) + Degree(b)
    case Scaled(x, _) => Degree(x)
  }

  datatype Gate = Gate(name: string, polys: seq<Expr>)

  /** A lookup: each input expression is matched against a table column, all on one table row. */
  datatype Lookup = Lookup(inputs: seq<(Expr, TableColumn)>)

  /** What configuration registers: allocated columns and selectors, gates and lookups. */
  datatype ConstraintSystem = ConstraintSystem(
    numAdvice: nat,
    numSelectors: nat,
    numTableColumns: nat,
    equality: set<Column>,
    gates: seq<Gate>,
    lookups: seq<Lookup>)

  function EmptySystem(): ConstraintSystem {
    ConstraintSystem(0, 0, 0, {}, [], [])
  }

  function AdviceColumn(cs: ConstraintSystem): (ConstraintSystem, Column) {
    (cs.(numAdvice := cs.numAdvice + 1), Column(cs.numAdvice))
  }

  /** `selector` and `complex_selector` alike. */
  function NewSelector(cs: ConstraintSystem): (ConstraintSystem, Selector) {
    (cs.(numSelectors := cs.numSelectors + 1), Selector(cs.numSelectors))
  }

  function LookupTableColumn(cs: ConstraintSystem): (ConstraintSystem, TableColumn) {
    (cs.(numTableColumns := cs.numTableColumns + 1), TableColumn(cs.numTableColumns))
  }

  function EnableEquality(cs: ConstraintSystem, c: Column): ConstraintSystem {
    cs.(equality := cs.equality + {c})
  }

  function CreateGate(cs: ConstraintSystem, name: string, polys: seq<Expr>): ConstraintSystem {
    cs.(gates := cs.gates + [Gate(name, polys)])
  }

  function AddLookup(cs: ConstraintSystem, inputs: seq<(Expr, TableColumn)>): ConstraintSystem {
    cs.(lookups := cs.lookups + [Lookup(inputs)])
  }

  /** Every constraint of the gate is zero at the row. */
  predicate GateHolds(p: Modulus, g: Gate, w: Witness, row: int) {
    forall k :: 0 <= k < |g.polys| ==> Eval(p, g.polys[k], w, row) == 0
  }

  /** Lookup table contents, by (table column, offset). */
  type TableCells = map<(TableColumn, nat), nat>

  /** Table row `trow` holds, column by column, the values the inputs take at `row`. */
  predicate RowMatches(p: Modulus, lk: Lookup, w: Witness, t: TableCells, row: int, trow: nat) {
    forall k :: 0 <= k < |lk.inputs| ==>
      (lk.inputs[k].1, trow) in t && Eval(p, lk.inputs[k].0, w, row) == FromInt(p, t[(lk.inputs[k].1, trow)])
  }

  /** The tuple of inputs at `row` is one of the table's rows. */
  ghost predicate LookupHolds(p: Modulus, lk: Lookup, w: Witness, t: TableCells, row: int) {
    exists trow: nat :: RowMatches(p, lk, w, t, row, trow)
  }

  datatype CircuitError = TableCellReassigned(column: TableColumn, offset: nat) | RunningSumNotZero

  /** A region's advice cells and enabled selectors, written during synthesis. */
  class Region {
    var cells: map<(Column, int), nat>
    var enabled: set<(Selector, int)>

    constructor ()
      ensures cells == map[] && enabled == {}
    {
      cells := map[];
      enabled := {};
    }

    function State(): Witness
      reads this
    {
      Witness(cells, enabled)
    }

    /** `assign_advice` */
    method AssignAdvice(column: Column, offset: nat, value: nat)
      modifies this
      ensures cells == old(cells)[(column, offset as int) := value]
      ensures enabled == old(enabled)
    {
      cells := cells[(column, offset as int) := value];
    }

    /** `Selector::enable` */
    method Enable(s: Selector, offset: nat)
      modifies this
      ensures enabled == old(enabled) + {(s, offset as int)}
      ensures cells == old(cells)
    {
      enabled := enabled + {(s, offset as int)};
    }
  }

  /**
   * The table assignment pass: each table cell is written at most once; a
   * second write to the same cell is refused. The ghost log records the
   * order of the writes.
   */
  class TableLayouter {
    var cells: TableCells
    ghost var writes: seq<(TableColumn, nat)>

    constructor ()
      ensures cells == map[] && writes == []
    {
      cells := map[];
      writes := [];
    }

    /** `assign_cell` */
    method AssignCell(column: TableColumn, offset: nat, value: nat) returns (res: Outcome<CircuitError>)
      modifies this
      ensures (column, offset) in old(cells) ==>
        res == Fail(TableCellReassigned(column, offset)) && cells == old(cells) && writes == old(writes)
      ensures (column, offset) !in old(cells) ==>
        res == Pass && cells == old(cells)[(column, offset) := value] && writes == old(writes) + [(column, offset)]
    {
      if (column, offset) in cells {
        res := Fail(TableCellReassigned(column, offset));
      } else {
        cells := cells[(column, offset) := value];
        writes := writes + [(column, offset)];
        res := Pass;
      }
    }
  }
}
