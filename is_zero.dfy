/**
 * The IsZero chip and the "if a == 0 { b } else { c }" chip built on it.
 * The configuration is modelled as written: the `is_zero_expr` the IsZero
 * configuration hands out is the constant 0 (the `1 - value * value_inv`
 * expression exists only inside the gate closure), and the select gate
 * multiplies `c - out` by that expression and `b - out` by one minus it.
 */
module IsZeroGadget {
  import opened Wrappers
  import opened Field
  import opened Circuit

  datatype IsZeroConfig = IsZeroConfig(valueInv: Column, isZeroExpr: Expr)

  /** `1 - value * value_inv`, built inside the gate closure. */
  function IsZeroExpression(value: Expr, valueInv: Column): Expr {
    Minus(Constant(1), Product(value, Advice(valueInv, 0)))
  }

  /** The one constraint of "is zero check gate": `zero_check * value * (1 - value * value_inv)`. */
  function IsZeroCheck(zeroCheck: Expr, value: Expr, valueInv: Column): Expr {
    Product(Product(zeroCheck, value), IsZeroExpression(value, valueInv))
  }

  /** `IsZeroChip::configure`: registers the gate; the returned expression is `Constant(0)`. */
  function IsZeroConfigure(cs: ConstraintSystem, zeroCheck: Expr, value: Expr, valueInv: Column)
    : (ConstraintSystem, IsZeroConfig)
  {
    var isZeroExpr := Constant(0);
    (CreateGate(cs, "is zero check gate", [IsZeroCheck(zeroCheck, value, valueInv)]),
     IsZeroConfig(valueInv, isZeroExpr))
  }

  /** `IsZeroChip::assign`: the inverse of the value, or 0 for zero, at offset 0. */
  method IsZeroAssign(p: Modulus, config: IsZeroConfig, r: Region, value: nat)
    requires IsPrime(p)
    modifies r
    ensures (config.valueInv, 0) in r.cells && IsInverseOrZero(p, value, r.cells[(config.valueInv, 0)])
    ensures r.cells == old(r.cells)[(config.valueInv, 0) := r.cells[(config.valueInv, 0)]]
    ensures r.enabled == old(r.enabled)
  {
    var inverse := Invert(p, value);
    var valueInv := inverse.GetOr(0);
    r.AssignAdvice(config.valueInv, 0, valueInv);
  }

  // -----------------------------------------------------------------------
  // What the IsZero gate means
  // -----------------------------------------------------------------------

  lemma EvalIsZero(p: Modulus, zeroCheck: Expr, value: Expr, valueInv: Column, w: Witness, row: int)
    ensures Eval(p, IsZeroExpression(value, valueInv), w, row)
            == Sub(p, 1, Mul(p, Eval(p, value, w, row), CellValue(w, valueInv, row)))
    ensures Eval(p, IsZeroCheck(zeroCheck, value, valueInv), w, row)
            == Mul(p, Mul(p, Eval(p, zeroCheck, w, row), Eval(p, value, w, row)),
                   Eval(p, IsZeroExpression(value, valueInv), w, row))
  {
    var v, inv := Eval(p, value, w, row), CellValue(w, valueInv, row);
    var prod := Product(value, Advice(valueInv, 0));
    assert Eval(p, Advice(valueInv, 0), w, row) == inv % p;
    assert Eval(p, prod, w, row) == Mul(p, v, inv % p);
    MulReduced(p, v, inv);
    EvalMinus(p, Constant(1), prod, w, row);
    ModSmall(p, 1);
    assert Eval(p, Constant(1), w, row) == 1;
  }

  /** A nonzero value with its assigned inverse: `1 - v*inv` is 0 and the gate holds. */
  lemma IsZeroCompleteNonzero(p: Modulus, zeroCheck: Expr, value: Expr, valueInv: Column, w: Witness, row: int)
    requires IsPrime(p)
    requires Eval(p, value, w, row) != 0
    requires IsInverseOrZero(p, Eval(p, value, w, row), CellValue(w, valueInv, row))
    ensures Eval(p, IsZeroExpression(value, valueInv), w, row) == 0
    ensures Eval(p, IsZeroCheck(zeroCheck, value, valueInv), w, row) == 0
  {
    var v := Eval(p, value, w, row);
    EvalIsZero(p, zeroCheck, value, valueInv, w, row);
    ModSmall(p, v);
    MulZero(p, Mul(p, Eval(p, zeroCheck, w, row), v));
  }

  /** A zero value: the gate holds whatever the inverse cell holds, and `1 - v*inv` is 1. */
  lemma IsZeroAtZero(p: Modulus, zeroCheck: Expr, value: Expr, valueInv: Column, w: Witness, row: int)
    requires Eval(p, value, w, row) == 0
    ensures Eval(p, IsZeroExpression(value, valueInv), w, row) == 1
    ensures Eval(p, IsZeroCheck(zeroCheck, value, valueInv), w, row) == 0
  {
    EvalIsZero(p, zeroCheck, value, valueInv, w, row);
    var z, inv := Eval(p, zeroCheck, w, row), CellValue(w, valueInv, row);
    MulZero(p, inv);
    ModSmall(p, 1);
    assert Sub(p, 1, Mul(p, 0, inv)) == 1;
    MulZero(p, z);
    MulZero(p, 1);
    assert Mul(p, Mul(p, z, 0), 1) == 0;
  }

  /**
   * Soundness: with the gate enabled and a nonzero value, the gate holding
   * forces the inverse cell to be the value's inverse, so `1 - v*inv` is 0.
   */
  lemma IsZeroSound(p: Modulus, zeroCheck: Expr, value: Expr, valueInv: Column, w: Witness, row: int)
    requires IsPrime(p)
    requires Eval(p, zeroCheck, w, row) == 1
    requires Eval(p, value, w, row) != 0
    requires Eval(p, IsZeroCheck(zeroCheck, value, valueInv), w, row) == 0
    ensures Mul(p, Eval(p, value, w, row), CellValue(w, valueInv, row)) == 1
    ensures IsInverseOrZero(p, Eval(p, value, w, row), CellValue(w, valueInv, row) % p)
    ensures Eval(p, IsZeroExpression(value, valueInv), w, row) == 0
  {
    var v, inv := Eval(p, value, w, row), CellValue(w, valueInv, row);
    EvalIsZero(p, zeroCheck, value, valueInv, w, row);
    var z := Eval(p, IsZeroExpression(value, valueInv), w, row);
    MulIdentity(p, v);
    NoZeroDivisors(p, v, z);
    ModSmall(p, v);
    ModSmall(p, z);
    assert z == 0;
    ModSmall(p, 1);
    SubZero(p, 1, Mul(p, v, inv));
    MulReduced(p, v, inv);
  }

  /** An inverse cell left at 0 under a nonzero value leaves the enabled gate at that value. */
  lemma IsZeroZeroInverseRejected(p: Modulus, zeroCheck: Expr, value: Expr, valueInv: Column, w: Witness, row: int)
    requires Eval(p, zeroCheck, w, row) == 1
    requires CellValue(w, valueInv, row) == 0
    ensures Eval(p, IsZeroCheck(zeroCheck, value, valueInv), w, row) == Eval(p, value, w, row)
  {
    var v := Eval(p, value, w, row);
    EvalIsZero(p, zeroCheck, value, valueInv, w, row);
    MulZero(p, v);
    assert Mul(p, v, CellValue(w, valueInv, row)) == 0;
    ModSmall(p, 1);
    assert Sub(p, 1, 0) == 1;
    assert Eval(p, IsZeroExpression(value, valueInv), w, row) == 1;
    MulIdentity(p, v);
    assert Mul(p, Eval(p, zeroCheck, w, row), v) == v;
  }

  /** With the enabling expression at 0 the gate holds whatever the cells hold. */
  lemma IsZeroDisabled(p: Modulus, zeroCheck: Expr, value: Expr, valueInv: Column, w: Witness, row: int)
    requires Eval(p, zeroCheck, w, row) == 0
    ensures Eval(p, IsZeroCheck(zeroCheck, value, valueInv), w, row) == 0
  {
    EvalIsZero(p, zeroCheck, value, valueInv, w, row);
    MulZero(p, Eval(p, value, w, row));
    MulZero(p, Eval(p, IsZeroExpression(value, valueInv), w, row));
  }

  // -----------------------------------------------------------------------
  // The select chip, "if a == 0 { b } else { c }"
  // -----------------------------------------------------------------------

  datatype FunctionConfig = FunctionConfig(
    a: Column, b: Column, c: Column, out: Column, selector: Selector, aIsZeroConfig: IsZeroConfig)

  /** The two constraints of the select gate, wired as the Rust `configure` wires them. */
  function SelectPolys(s: Selector, aIsZero: Expr, b: Column, c: Column, out: Column): seq<Expr> {
    [Product(Product(Selected(s), aIsZero), Minus(Advice(c, 0), Advice(out, 0))),
     Product(Product(Selected(s), Minus(Constant(1), aIsZero)), Minus(Advice(b, 0), Advice(out, 0)))]
  }

  /** `FunctionChip::configure` */
  function FunctionConfigure(cs: ConstraintSystem): (ConstraintSystem, FunctionConfig) {
    var (cs1, a) := AdviceColumn(cs);
    var (cs2, b) := AdviceColumn(cs1);
    var (cs3, c) := AdviceColumn(cs2);
    var (cs4, out) := AdviceColumn(cs3);
    var (cs5, selector) := NewSelector(cs4);
    var cs6 := EnableEquality(EnableEquality(EnableEquality(EnableEquality(cs5, a), b), c), out);
    var (cs7, zeroCheckAdvice) := AdviceColumn(cs6);
    var (cs8, aIsZeroConfig) := IsZeroConfigure(cs7, Selected(selector), Advice(a, 0), zeroCheckAdvice);
    var cs9 := CreateGate(cs8, "if a == 0 { b } else { c }",
                          SelectPolys(selector, aIsZeroConfig.isZeroExpr, b, c, out));
    (cs9, FunctionConfig(a, b, c, out, selector, aIsZeroConfig))
  }

  /** The value `FunctionChip::assign` writes to `out`. */
  function SelectOut(a: nat, b: nat, c: nat): nat {
    if a == 0 then b else c
  }

  /** The witness after `FunctionChip::assign` on a region holding `w`. */
  function FunctionWrites(cfg: FunctionConfig, w: Witness, a: nat, b: nat, c: nat, inv: nat): Witness {
    Witness(
      w.cells[(cfg.aIsZeroConfig.valueInv, 0) := inv]
             [(cfg.a, 0) := a][(cfg.b, 0) := b][(cfg.c, 0) := c][(cfg.out, 0) := SelectOut(a, b, c)],
      w.enabled + {(cfg.selector, 0)})
  }

  /** `FunctionChip::assign` */
  method FunctionAssign(p: Modulus, cfg: FunctionConfig, r: Region, a: nat, b: nat, c: nat)
      returns (ghost inv: nat)
    requires IsPrime(p) && a < p && b < p && c < p
    modifies r
    ensures IsInverseOrZero(p, a, inv)
    ensures r.State() == FunctionWrites(cfg, old(r.State()), a, b, c, inv)
    ensures r.cells[(cfg.out, 0)] == (if a == 0 then b else c)
    ensures r.enabled == old(r.enabled) + {(cfg.selector, 0)}
  {
    r.Enable(cfg.selector, 0);
    IsZeroAssign(p, cfg.aIsZeroConfig, r, a);
    inv := r.cells[(cfg.aIsZeroConfig.valueInv, 0)];
    r.AssignAdvice(cfg.a, 0, a);
    r.AssignAdvice(cfg.b, 0, b);
    r.AssignAdvice(cfg.c, 0, c);
    var out := if a == 0 then b else c;
    r.AssignAdvice(cfg.out, 0, out);
  }

  /** All gates of a constraint system hold at a row. */
  predicate GatesHoldAt(p: Modulus, cs: ConstraintSystem, w: Witness, row: int) {
    forall k :: 0 <= k < |cs.gates| ==> GateHolds(p, cs.gates[k], w, row)
  }

  /** The select chip's configuration on a fresh constraint system: its columns and its two gates. */
  lemma FunctionConfigureLayout()
    ensures FunctionConfigure(EmptySystem()).1
            == FunctionConfig(Column(0), Column(1), Column(2), Column(3), Selector(0),
                              IsZeroConfig(Column(4), Constant(0)))
    ensures FunctionConfigure(EmptySystem()).0.gates
            == [Gate("is zero check gate", [IsZeroCheck(Selected(Selector(0)), Advice(Column(0), 0), Column(4))]),
                Gate("if a == 0 { b } else { c }", SelectPolys(Selector(0), Constant(0), Column(1), Column(2), Column(3)))]
    ensures FunctionConfigure(EmptySystem()).0.equality == {Column(0), Column(1), Column(2), Column(3)}
  {
  }

  lemma EvalSelected(p: Modulus, s: Selector, e: Expr, w: Witness, row: int)
    ensures SelectorValue(w, s, row) == 0 ==> Eval(p, Product(Selected(s), e), w, row) == 0
    ensures SelectorValue(w, s, row) == 1 ==> Eval(p, Product(Selected(s), e), w, row) == Eval(p, e, w, row)
  {
    MulZero(p, Eval(p, e, w, row));
    MulIdentity(p, Eval(p, e, w, row));
  }

  /**
   * The select gate as written: because the IsZero configuration hands out
   * the constant 0, the first constraint is identically 0 and the second is
   * `selector * (b - out)`.
   */
  lemma SelectGateAsWritten(p: Modulus, s: Selector, b: Column, c: Column, out: Column, w: Witness, row: int)
    ensures Eval(p, SelectPolys(s, Constant(0), b, c, out)[0], w, row) == 0
    ensures Eval(p, SelectPolys(s, Constant(0), b, c, out)[1], w, row)
            == Mul(p, SelectorValue(w, s, row), Sub(p, CellValue(w, b, row), CellValue(w, out, row)))
  {
    var sv := SelectorValue(w, s, row);
    var bOut, cOut := Minus(Advice(b, 0), Advice(out, 0)), Minus(Advice(c, 0), Advice(out, 0));
    assert Eval(p, Constant(0), w, row) == 0;
    EvalSelectedProduct(p, s, Constant(0), cOut, w, row);
    MulZero(p, sv);
    MulZero(p, Eval(p, cOut, w, row));
    EvalMinus(p, Constant(1), Constant(0), w, row);
    ModSmall(p, 1);
    assert Eval(p, Minus(Constant(1), Constant(0)), w, row) == 1;
    EvalSelectedProduct(p, s, Minus(Constant(1), Constant(0)), bOut, w, row);
    MulIdentity(p, sv);
    EvalMinus(p, Advice(b, 0), Advice(out, 0), w, row);
    SubReduced(p, CellValue(w, b, row), CellValue(w, out, row));
    assert Eval(p, bOut, w, row) == Sub(p, CellValue(w, b, row), CellValue(w, out, row));
  }

  /** A selector-gated product `s * x * y`, evaluated one factor at a time. */
  lemma EvalSelectedProduct(p: Modulus, s: Selector, x: Expr, y: Expr, w: Witness, row: int)
    ensures Eval(p, Product(Product(Selected(s), x), y), w, row)
            == Mul(p, Mul(p, SelectorValue(w, s, row), Eval(p, x, w, row)), Eval(p, y, w, row))
  {
    var sx := Product(Selected(s), x);
    assert Eval(p, Selected(s), w, row) == SelectorValue(w, s, row);
    assert Eval(p, sx, w, row) == Mul(p, Eval(p, Selected(s), w, row), Eval(p, x, w, row));
    assert Eval(p, Product(sx, y), w, row) == Mul(p, Eval(p, sx, w, row), Eval(p, y, w, row));
  }

  /** The witness of `assign` on a fresh region, for the configuration on a fresh constraint system. */
  function AssignedWitness(a: nat, b: nat, c: nat, inv: nat): Witness {
    FunctionWrites(FunctionConfigure(EmptySystem()).1, Witness(map[], {}), a, b, c, inv)
  }

  /** On a row where the selector is off every gate of the circuit holds, whatever the cells hold. */
  lemma FunctionDisabledRowHolds(p: Modulus, w: Witness, row: int)
    requires SelectorValue(w, Selector(0), row) == 0
    ensures GatesHoldAt(p, FunctionConfigure(EmptySystem()).0, w, row)
  {
    FunctionConfigureLayout();
    var cs := FunctionConfigure(EmptySystem()).0;
    IsZeroDisabled(p, Selected(Selector(0)), Advice(Column(0), 0), Column(4), w, row);
    SelectGateAsWritten(p, Selector(0), Column(1), Column(2), Column(3), w, row);
    MulZero(p, Sub(p, CellValue(w, Column(1), row), CellValue(w, Column(3), row)));
    assert GateHolds(p, cs.gates[0], w, row);
    assert GateHolds(p, cs.gates[1], w, row);
  }

  /** Off row 0 the selector is off, so every gate of the circuit holds on the assigned witness. */
  lemma FunctionOffRowsHold(p: Modulus, a: nat, b: nat, c: nat, inv: nat, row: int)
    requires row != 0
    ensures GatesHoldAt(p, FunctionConfigure(EmptySystem()).0, AssignedWitness(a, b, c, inv), row)
  {
    FunctionConfigureLayout();
    var w := AssignedWitness(a, b, c, inv);
    assert SelectorValue(w, Selector(0), row) == 0;
    FunctionDisabledRowHolds(p, w, row);
  }

  /**
   * The circuit as written accepts the witness its own `assign` produces
   * exactly when `a == 0` or `b == c`: for a nonzero `a` it demands
   * `out == b` while `assign` writes `out = c`.
   */
  lemma FunctionAssignedSatisfiedIff(p: Modulus, a: nat, b: nat, c: nat, inv: nat)
    requires IsPrime(p) && a < p && b < p && c < p && IsInverseOrZero(p, a, inv)
    ensures GatesHoldAt(p, FunctionConfigure(EmptySystem()).0, AssignedWitness(a, b, c, inv), 0)
            <==> (a == 0 || b == c)
  {
    FunctionConfigureLayout();
    var cs := FunctionConfigure(EmptySystem()).0;
    var w := AssignedWitness(a, b, c, inv);
    assert SelectorValue(w, Selector(0), 0) == 1;
    assert CellValue(w, Column(0), 0) == a;
    assert CellValue(w, Column(1), 0) == b;
    assert CellValue(w, Column(3), 0) == SelectOut(a, b, c);
    assert CellValue(w, Column(4), 0) == inv;
    ModSmall(p, a);
    assert Eval(p, Advice(Column(0), 0), w, 0) == a;
    if a == 0 {
      IsZeroAtZero(p, Selected(Selector(0)), Advice(Column(0), 0), Column(4), w, 0);
    } else {
      IsZeroCompleteNonzero(p, Selected(Selector(0)), Advice(Column(0), 0), Column(4), w, 0);
    }
    assert GateHolds(p, cs.gates[0], w, 0);
    SelectGateAsWritten(p, Selector(0), Column(1), Column(2), Column(3), w, 0);
    MulIdentity(p, Sub(p, b, SelectOut(a, b, c)));
    SubZero(p, b, SelectOut(a, b, c));
    assert GateHolds(p, cs.gates[1], w, 0) <==> b == SelectOut(a, b, c);
  }

  /** The `test_is_zero` test: a = 0, b = 1, c = 2 satisfies every gate on every row. */
  lemma FunctionTestIsZero(p: Modulus)
    requires IsPrime(p) && p > 2
    ensures forall row :: GatesHoldAt(p, FunctionConfigure(EmptySystem()).0, AssignedWitness(0, 1, 2, 0), row)
  {
    forall row ensures GatesHoldAt(p, FunctionConfigure(EmptySystem()).0, AssignedWitness(0, 1, 2, 0), row) {
      if row == 0 {
        FunctionAssignedSatisfiedIff(p, 0, 1, 2, 0);
      } else {
        FunctionOffRowsHold(p, 0, 1, 2, 0, row);
      }
    }
  }

  /** a = 5, b = 1, c = 2: `assign` writes out = 2, and the select gate fails at row 0. */
  lemma FunctionNonzeroRejected(p: Modulus, inv: nat)
    requires IsPrime(p) && p > 5 && IsInverseOrZero(p, 5, inv)
    ensures !GatesHoldAt(p, FunctionConfigure(EmptySystem()).0, AssignedWitness(5, 1, 2, inv), 0)
  {
    FunctionAssignedSatisfiedIff(p, 5, 1, 2, inv);
  }

  /**
   * Even with the intended `1 - a*inv` in place of the constant, the Rust
   * code's wiring would force `out == c` when `a == 0`, the opposite of `assign`.
   */
  lemma WiringAsWrittenSelectsC(p: Modulus, s: Selector, a: Column, inv: Column, b: Column, c: Column,
                             out: Column, w: Witness, row: int)
    requires SelectorValue(w, s, row) == 1
    requires CellValue(w, a, row) % p == 0
    requires forall k :: 0 <= k < 2 ==>
      Eval(p, SelectPolys(s, IsZeroExpression(Advice(a, 0), inv), b, c, out)[k], w, row) == 0
    ensures CellValue(w, out, row) % p == CellValue(w, c, row) % p
  {
    var z := IsZeroExpression(Advice(a, 0), inv);
    var cOut := Minus(Advice(c, 0), Advice(out, 0));
    EvalIsZero(p, Selected(s), Advice(a, 0), inv, w, row);
    assert Eval(p, Advice(a, 0), w, row) == 0;
    MulZero(p, CellValue(w, inv, row));
    ModSmall(p, 1);
    assert Eval(p, z, w, row) == 1;
    assert Eval(p, SelectPolys(s, z, b, c, out)[0], w, row) == 0;
    EvalSelectedProduct(p, s, z, cOut, w, row);
    MulIdentity(p, 1);
    EvalAdviceDifference(p, c, out, w, row);
    MulIdentity(p, Eval(p, cOut, w, row));
    SubReduced(p, CellValue(w, c, row), CellValue(w, out, row));
    SubZero(p, CellValue(w, c, row) % p, CellValue(w, out, row) % p);
  }

  // -----------------------------------------------------------------------
  // The evidently intended select chip
  // -----------------------------------------------------------------------

  /** IsZero configuration handing out the real `1 - value * value_inv`. */
  function IsZeroConfigureIntended(cs: ConstraintSystem, zeroCheck: Expr, value: Expr, valueInv: Column)
    : (ConstraintSystem, IsZeroConfig)
  {
    (CreateGate(cs, "is zero check gate", [IsZeroCheck(zeroCheck, value, valueInv)]),
     IsZeroConfig(valueInv, IsZeroExpression(value, valueInv)))
  }

  /** The select constraints wired so that the zero branch selects `b`. */
  function SelectPolysIntended(s: Selector, aIsZero: Expr, b: Column, c: Column, out: Column): seq<Expr> {
    [Product(Product(Selected(s), aIsZero), Minus(Advice(b, 0), Advice(out, 0))),
     Product(Product(Selected(s), Minus(Constant(1), aIsZero)), Minus(Advice(c, 0), Advice(out, 0)))]
  }

  function FunctionConfigureIntended(cs: ConstraintSystem): (ConstraintSystem, FunctionConfig) {
    var (cs1, a) := AdviceColumn(cs);
    var (cs2, b) := AdviceColumn(cs1);
    var (cs3, c) := AdviceColumn(cs2);
    var (cs4, out) := AdviceColumn(cs3);
    var (cs5, selector) := NewSelector(cs4);
    var cs6 := EnableEquality(EnableEquality(EnableEquality(EnableEquality(cs5, a), b), c), out);
    var (cs7, zeroCheckAdvice) := AdviceColumn(cs6);
    var (cs8, aIsZeroConfig) := IsZeroConfigureIntended(cs7, Selected(selector), Advice(a, 0), zeroCheckAdvice);
    var cs9 := CreateGate(cs8, "if a == 0 { b } else { c }",
                          SelectPolysIntended(selector, aIsZeroConfig.isZeroExpr, b, c, out));
    (cs9, FunctionConfig(a, b, c, out, selector, aIsZeroConfig))
  }

  lemma FunctionConfigureIntendedLayout()
    ensures FunctionConfigureIntended(EmptySystem()).1
            == FunctionConfig(Column(0), Column(1), Column(2), Column(3), Selector(0),
                              IsZeroConfig(Column(4), IsZeroExpression(Advice(Column(0), 0), Column(4))))
    ensures FunctionConfigureIntended(EmptySystem()).0.gates
            == [Gate("is zero check gate", [IsZeroCheck(Selected(Selector(0)), Advice(Column(0), 0), Column(4))]),
                Gate("if a == 0 { b } else { c }",
                     SelectPolysIntended(Selector(0), IsZeroExpression(Advice(Column(0), 0), Column(4)),
                                         Column(1), Column(2), Column(3)))]
  {
  }

  /** The intended select constraints at an enabled row, given the value of the is-zero expression. */
  lemma EvalSelectIntended(p: Modulus, s: Selector, z: Expr, b: Column, c: Column, out: Column, w: Witness, row: int)
    requires SelectorValue(w, s, row) == 1
    requires Eval(p, z, w, row) <= 1
    ensures Eval(p, SelectPolysIntended(s, z, b, c, out)[0], w, row)
            == (if Eval(p, z, w, row) == 1 then Sub(p, CellValue(w, b, row), CellValue(w, out, row)) else 0)
    ensures Eval(p, SelectPolysIntended(s, z, b, c, out)[1], w, row)
            == (if Eval(p, z, w, row) == 0 then Sub(p, CellValue(w, c, row), CellValue(w, out, row)) else 0)
  {
    var zv := Eval(p, z, w, row);
    var bOut, cOut := Minus(Advice(b, 0), Advice(out, 0)), Minus(Advice(c, 0), Advice(out, 0));
    var nz := Minus(Constant(1), z);
    EvalAdviceDifference(p, b, out, w, row);
    EvalAdviceDifference(p, c, out, w, row);
    EvalSelectedProduct(p, s, z, bOut, w, row);
    EvalSelectedProduct(p, s, nz, cOut, w, row);
    EvalMinus(p, Constant(1), z, w, row);
    ModSmall(p, 1);
    assert Eval(p, nz, w, row) == Sub(p, 1, zv);
    MulIdentity(p, zv);
    MulIdentity(p, Eval(p, bOut, w, row));
    MulIdentity(p, Eval(p, cOut, w, row));
    MulZero(p, Eval(p, bOut, w, row));
    MulZero(p, Eval(p, cOut, w, row));
    if zv == 0 {
      assert Sub(p, 1, zv) == 1;
      MulIdentity(p, 1);
    } else {
      assert Sub(p, 1, zv) == 0;
      MulZero(p, 1);
    }
  }

  /** `x - y` for two advice cells of the current row. */
  lemma EvalAdviceDifference(p: Modulus, x: Column, y: Column, w: Witness, row: int)
    ensures Eval(p, Minus(Advice(x, 0), Advice(y, 0)), w, row) == Sub(p, CellValue(w, x, row), CellValue(w, y, row))
  {
    EvalMinus(p, Advice(x, 0), Advice(y, 0), w, row);
    assert Eval(p, Advice(x, 0), w, row) == CellValue(w, x, row) % p;
    assert Eval(p, Advice(y, 0), w, row) == CellValue(w, y, row) % p;
    SubReduced(p, CellValue(w, x, row), CellValue(w, y, row));
  }

  /** Completeness of the intended chip: the witness `assign` writes satisfies every gate on every row. */
  lemma IntendedComplete(p: Modulus, a: nat, b: nat, c: nat, inv: nat, row: int)
    requires IsPrime(p) && a < p && b < p && c < p && IsInverseOrZero(p, a, inv)
    ensures GatesHoldAt(p, FunctionConfigureIntended(EmptySystem()).0,
                        FunctionWrites(FunctionConfigureIntended(EmptySystem()).1, Witness(map[], {}), a, b, c, inv), row)
  {
    FunctionConfigureIntendedLayout();
    var cs := FunctionConfigureIntended(EmptySystem()).0;
    var w := FunctionWrites(FunctionConfigureIntended(EmptySystem()).1, Witness(map[], {}), a, b, c, inv);
    var av := Advice(Column(0), 0);
    var z := IsZeroExpression(av, Column(4));
    var polys := SelectPolysIntended(Selector(0), z, Column(1), Column(2), Column(3));
    if row != 0 {
      assert SelectorValue(w, Selector(0), row) == 0;
      IsZeroDisabled(p, Selected(Selector(0)), av, Column(4), w, row);
      EvalReduceSelected(p, Selector(0), z, polys, w, row);
    } else {
      assert SelectorValue(w, Selector(0), 0) == 1;
      assert CellValue(w, Column(4), 0) == inv;
      ModSmall(p, a);
      assert Eval(p, av, w, 0) == a;
      assert CellValue(w, Column(1), 0) == b && CellValue(w, Column(2), 0) == c;
      assert CellValue(w, Column(3), 0) == SelectOut(a, b, c);
      if a == 0 {
        IsZeroAtZero(p, Selected(Selector(0)), av, Column(4), w, 0);
        SubZero(p, b, b);
      } else {
        IsZeroCompleteNonzero(p, Selected(Selector(0)), av, Column(4), w, 0);
        SubZero(p, c, c);
      }
      EvalSelectIntended(p, Selector(0), z, Column(1), Column(2), Column(3), w, 0);
    }
    assert GateHolds(p, cs.gates[0], w, row);
    assert GateHolds(p, cs.gates[1], w, row);
  }

  /** Both intended select constraints vanish where the selector is off. */
  lemma EvalReduceSelected(p: Modulus, s: Selector, z: Expr, polys: seq<Expr>, w: Witness, row: int)
    requires SelectorValue(w, s, row) == 0
    requires |polys| == 2
    requires polys[0].Product? && polys[0].left.Product? && polys[0].left.left == Selected(s)
    requires polys[1].Product? && polys[1].left.Product? && polys[1].left.left == Selected(s)
    ensures Eval(p, polys[0], w, row) == 0 && Eval(p, polys[1], w, row) == 0
  {
    SelectedOff(p, s, polys[0].left.right, polys[0].right, w, row);
    SelectedOff(p, s, polys[1].left.right, polys[1].right, w, row);
  }

  lemma SelectedOff(p: Modulus, s: Selector, x: Expr, y: Expr, w: Witness, row: int)
    requires SelectorValue(w, s, row) == 0
    ensures Eval(p, Product(Product(Selected(s), x), y), w, row) == 0
  {
    var xv, yv := Eval(p, x, w, row), Eval(p, y, w, row);
    assert Eval(p, Selected(s), w, row) == 0;
    MulZero(p, xv);
    assert Eval(p, Product(Selected(s), x), w, row) == 0;
    MulZero(p, yv);
  }

  /**
   * Soundness of the intended chip: on an enabled row where every gate
   * holds, `out` is `b` if `a` is zero and `c` otherwise.
   */
  lemma IntendedSound(p: Modulus, w: Witness, row: int)
    requires IsPrime(p)
    requires SelectorValue(w, Selector(0), row) == 1
    requires GatesHoldAt(p, FunctionConfigureIntended(EmptySystem()).0, w, row)
    ensures CellValue(w, Column(3), row) % p
            == (if CellValue(w, Column(0), row) % p == 0 then CellValue(w, Column(1), row) % p
                else CellValue(w, Column(2), row) % p)
  {
    FunctionConfigureIntendedLayout();
    var cs := FunctionConfigureIntended(EmptySystem()).0;
    var av := Advice(Column(0), 0);
    var z := IsZeroExpression(av, Column(4));
    var polys := SelectPolysIntended(Selector(0), z, Column(1), Column(2), Column(3));
    assert GateHolds(p, cs.gates[0], w, row);
    assert GateHolds(p, cs.gates[1], w, row);
    assert cs.gates[0].polys[0] == IsZeroCheck(Selected(Selector(0)), av, Column(4));
    assert Eval(p, cs.gates[0].polys[0], w, row) == 0;
    assert cs.gates[1].polys == polys;
    assert Eval(p, polys[0], w, row) == 0 && Eval(p, polys[1], w, row) == 0;
    IntendedSelectSound(p, Selector(0), Column(0), Column(4), Column(1), Column(2), Column(3), w, row);
  }

  /** The reasoning of `IntendedSound` for any choice of columns. */
  lemma IntendedSelectSound(p: Modulus, s: Selector, a: Column, inv: Column, b: Column, c: Column, out: Column,
                            w: Witness, row: int)
    requires IsPrime(p)
    requires SelectorValue(w, s, row) == 1
    requires Eval(p, IsZeroCheck(Selected(s), Advice(a, 0), inv), w, row) == 0
    requires Eval(p, SelectPolysIntended(s, IsZeroExpression(Advice(a, 0), inv), b, c, out)[0], w, row) == 0
    requires Eval(p, SelectPolysIntended(s, IsZeroExpression(Advice(a, 0), inv), b, c, out)[1], w, row) == 0
    ensures CellValue(w, out, row) % p
            == (if CellValue(w, a, row) % p == 0 then CellValue(w, b, row) % p else CellValue(w, c, row) % p)
  {
    var av := Advice(a, 0);
    var z := IsZeroExpression(av, inv);
    var v := Eval(p, av, w, row);
    assert v == CellValue(w, a, row) % p;
    assert Eval(p, Selected(s), w, row) == 1;
    if v == 0 {
      IsZeroAtZero(p, Selected(s), av, inv, w, row);
      EvalSelectIntended(p, s, z, b, c, out, w, row);
      SubReduced(p, CellValue(w, b, row), CellValue(w, out, row));
      SubZero(p, CellValue(w, b, row) % p, CellValue(w, out, row) % p);
    } else {
      IsZeroSound(p, Selected(s), av, inv, w, row);
      EvalSelectIntended(p, s, z, b, c, out, w, row);
      SubReduced(p, CellValue(w, c, row), CellValue(w, out, row));
      SubZero(p, CellValue(w, c, row) % p, CellValue(w, out, row) % p);
    }
  }
}
