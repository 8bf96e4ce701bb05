/**
 * Range check by a vanishing polynomial: the gate multiplies the checked
 * value by `value - i` for every i below RANGE. Because the fold starts its
 * accumulator at `value` itself, the polynomial is `value * prod (value - i)`,
 * which has the extra root 0 (already one of the allowed values when RANGE > 0).
 */
module PolyRangeCheck {
  import opened Field
  import opened Circuit

  datatype RangeCheckConfig = RangeCheckConfig(value: Column, selector: Selector)

  /** `(0..n).fold(value, |acc, el| acc * (value - el))` */
  function RangeFold(value: Expr, n: nat): Expr {
    if n == 0 then value else Product(RangeFold(value, n - 1), Minus(value, Constant(n - 1)))
  }

  /** `RangeCheckConfig::configure` */
  function Configure(cs: ConstraintSystem, value: Column, range: nat): (ConstraintSystem, RangeCheckConfig) {
    var (cs1, selector) := NewSelector(cs);
    var cs2 := CreateGate(cs1, "Range Check", WithSelector(selector, [RangeFold(Advice(value, 0), range)]));
    (cs2, RangeCheckConfig(value, selector))
  }

  /** `RangeCheckConfig::assign`: enable the selector and write the value, both at offset 0. */
  method Assign(config: RangeCheckConfig, r: Region, value: nat)
    modifies r
    ensures r.cells == old(r.cells)[(config.value, 0) := value]
    ensures r.enabled == old(r.enabled) + {(config.selector, 0)}
  {
    r.Enable(config.selector, 0);
    r.AssignAdvice(config.value, 0, value);
  }

  /** The falling product (x - 0)(x - 1)...(x - (n-1)) in F_p, the reference for the fold. */
  function FallingProduct(p: Modulus, x: int, n: nat): nat {
    if n == 0 then 1 % p else Mul(p, FallingProduct(p, x, n - 1), Sub(p, x, n - 1))
  }

  /** The roots of the falling product are exactly the residues of 0 .. n-1. */
  lemma {:induction false} FallingProductZero(p: Modulus, x: nat, n: nat)
    requires IsPrime(p) && x < p
    ensures FallingProduct(p, x, n) == 0 <==> exists i :: 0 <= i < n && x == FromInt(p, i)
  {
    if n > 0 {
      FallingProductZero(p, x, n - 1);
      var f, d := FallingProduct(p, x, n - 1), Sub(p, x, n - 1);
      NoZeroDivisors(p, f, d);
      ModSmall(p, f);
      ModSmall(p, d);
      SubReduced(p, x, n - 1);
      ModSmall(p, x);
      SubZero(p, x, FromInt(p, n - 1));
      if x == FromInt(p, n - 1) {
        assert 0 <= n - 1 < n && x == FromInt(p, n - 1);
      }
    } else {
      ModSmall(p, 1);
    }
  }

  /** The fold evaluates to `value * (value - 0) * ... * (value - (n-1))`. */
  lemma {:induction false} EvalRangeFold(p: Modulus, value: Expr, n: nat, w: Witness, row: int)
    ensures Eval(p, RangeFold(value, n), w, row)
            == Mul(p, Eval(p, value, w, row), FallingProduct(p, Eval(p, value, w, row), n))
  {
    var x := Eval(p, value, w, row);
    if n == 0 {
      ModSmall(p, 1);
      ModSmall(p, x);
      MulIdentity(p, x);
    } else {
      EvalRangeFold(p, value, n - 1, w, row);
      var acc := RangeFold(value, n - 1);
      assert Eval(p, RangeFold(value, n), w, row)
             == Mul(p, Eval(p, acc, w, row), Eval(p, Minus(value, Constant(n - 1)), w, row));
      EvalMinus(p, value, Constant(n - 1), w, row);
      ModSmall(p, x);
      SubReduced(p, x, n - 1);
      assert Eval(p, Minus(value, Constant(n - 1)), w, row) == Sub(p, x, n - 1);
      MulAssoc(p, x, FallingProduct(p, x, n - 1), Sub(p, x, n - 1));
    }
  }

  /** The fold has degree RANGE + 1, and the gate, with its selector, RANGE + 2. */
  lemma {:induction false} RangeFoldDegree(c: Column, n: nat)
    ensures Degree(RangeFold(Advice(c, 0), n)) == n + 1
    ensures Degree(Product(Selected(Selector(0)), RangeFold(Advice(c, 0), n))) == n + 2
  {
    if n > 0 {
      RangeFoldDegree(c, n - 1);
      assert Degree(Negated(Constant(n - 1))) == 0;
      assert Degree(Minus(Advice(c, 0), Constant(n - 1))) == 1;
    }
  }

  /**
   * The fold vanishes exactly at 0 and at the residues of 0 .. n-1: for a
   * modulus no smaller than RANGE these are the values below RANGE, plus 0.
   */
  lemma RangeFoldZero(p: Modulus, value: Expr, n: nat, w: Witness, row: int)
    requires IsPrime(p) && n <= p
    ensures Eval(p, RangeFold(value, n), w, row) == 0
            <==> Eval(p, value, w, row) < n || Eval(p, value, w, row) == 0
  {
    var x := Eval(p, value, w, row);
    EvalRangeFold(p, value, n, w, row);
    FallingProductZero(p, x, n);
    NoZeroDivisors(p, x, FallingProduct(p, x, n));
    ModSmall(p, x);
    ModSmall(p, FallingProduct(p, x, n));
    if x < n {
      ModSmall(p, x);
      assert 0 <= x < n && x == FromInt(p, x);
    }
    forall i | 0 <= i < n && x == FromInt(p, i)
      ensures x < n
    {
      ModSmall(p, i);
    }
  }

  /** The test circuit's `configure`: one advice column, then the range check on it. */
  function CircuitConfigure(cs: ConstraintSystem, range: nat): (ConstraintSystem, RangeCheckConfig) {
    var (cs1, column) := AdviceColumn(cs);
    Configure(cs1, column, range)
  }

  lemma CircuitLayout(range: nat)
    ensures CircuitConfigure(EmptySystem(), range).1 == RangeCheckConfig(Column(0), Selector(0))
    ensures CircuitConfigure(EmptySystem(), range).0.gates
            == [Gate("Range Check", [Product(Selected(Selector(0)), RangeFold(Advice(Column(0), 0), range))])]
  {
    var polys := WithSelector(Selector(0), [RangeFold(Advice(Column(0), 0), range)]);
    assert polys == [Product(Selected(Selector(0)), RangeFold(Advice(Column(0), 0), range))];
  }

  /** With the selector on, the gate holds exactly for the values below RANGE (and 0). */
  lemma GateIff(p: Modulus, s: Selector, c: Column, range: nat, w: Witness, row: int)
    requires IsPrime(p) && range <= p
    requires SelectorValue(w, s, row) == 1
    ensures GateHolds(p, Gate("Range Check", WithSelector(s, [RangeFold(Advice(c, 0), range)])), w, row)
            <==> CellValue(w, c, row) % p < range || CellValue(w, c, row) % p == 0
  {
    var fold := RangeFold(Advice(c, 0), range);
    var g := Gate("Range Check", WithSelector(s, [fold]));
    assert g.polys == [Product(Selected(s), fold)];
    MulIdentity(p, Eval(p, fold, w, row));
    assert Eval(p, g.polys[0], w, row) == Eval(p, fold, w, row);
    RangeFoldZero(p, Advice(c, 0), range, w, row);
  }

  /** With the selector off, the gate holds whatever the cell holds. */
  lemma GateDisabled(p: Modulus, s: Selector, c: Column, range: nat, w: Witness, row: int)
    requires SelectorValue(w, s, row) == 0
    ensures GateHolds(p, Gate("Range Check", WithSelector(s, [RangeFold(Advice(c, 0), range)])), w, row)
  {
    var fold := RangeFold(Advice(c, 0), range);
    MulZero(p, Eval(p, fold, w, row));
    assert Eval(p, Product(Selected(s), fold), w, row) == 0;
  }

  /** The witness `assign` leaves on a fresh region for the test circuit. */
  function AssignedWitness(value: nat): Witness {
    Witness(map[(Column(0), 0) := value], {(Selector(0), 0)})
  }

  /**
   * The test circuit's `synthesize`: `assign` on a fresh region, for the
   * configuration the test circuit's `configure` builds on a fresh system.
   */
  method Synthesize(value: nat) returns (w: Witness)
    ensures w == AssignedWitness(value)
  {
    var r := new Region();
    Assign(CircuitConfigure(EmptySystem(), 0).1, r, value);
    w := r.State();
  }

  /**
   * The test circuit with `value` assigned is satisfied on every row exactly
   * when the value is below RANGE (for a nonempty range and a prime at least RANGE).
   */
  lemma CircuitSatisfiedIff(p: Modulus, range: nat, value: nat)
    requires IsPrime(p) && 0 < range <= p && value < p
    ensures (forall row :: GateHolds(p, CircuitConfigure(EmptySystem(), range).0.gates[0], AssignedWitness(value), row))
            <==> value < range
  {
    CircuitLayout(range);
    var w := AssignedWitness(value);
    var g := CircuitConfigure(EmptySystem(), range).0.gates[0];
    assert g == Gate("Range Check", WithSelector(Selector(0), [RangeFold(Advice(Column(0), 0), range)]));
    assert SelectorValue(w, Selector(0), 0) == 1;
    ModSmall(p, value);
    GateIff(p, Selector(0), Column(0), range, w, 0);
    if value < range {
      forall row ensures GateHolds(p, g, w, row) {
        if row != 0 {
          assert SelectorValue(w, Selector(0), row) == 0;
          GateDisabled(p, Selector(0), Column(0), range, w, row);
        }
      }
    }
  }

  /** The `range_check_test` test: every value in 0..8 passes the 8-value range check. */
  lemma RangeCheckTest(p: Modulus, i: nat)
    requires IsPrime(p) && p >= 8 && i < 8
    ensures forall row :: GateHolds(p, CircuitConfigure(EmptySystem(), 8).0.gates[0], AssignedWitness(i), row)
  {
    CircuitSatisfiedIff(p, 8, i);
  }
}
