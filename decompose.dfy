/**
 * The running-sum decomposition range check. A value is cut into C = N / K
 * chunks of K bits: z_0 = value, z_{i+1} = (z_i - c_i) / 2^K, and z_C = 0.
 * Each row i < C has the complex selector on and looks the implicit chunk
 * `z_i - 2^K * z_{i+1}` up in the value column of the tagged K-bit table.
 * The witness assignment is the documented procedure: copy the value in,
 * compute and assign z_0 .. z_C, enable the selector on rows 0 .. C-1 and
 * require z_C to be 0.
 */
module Decompose {
  import opened Wrappers
  import opened Field
  import opened Circuit
  import TaggedTable

  datatype DecomposeConfig = DecomposeConfig(
    runningSum: Column, qDecompose: Selector, table: TaggedTable.RangeCheckTable)

  /** The chunk `z - next_z * 2^K` of the current row. */
  function ChunkExpr(runningSum: Column, k: nat): Expr {
    Minus(Advice(runningSum, 0), Scaled(Advice(runningSum, 1), Pow2(k)))
  }

  /** The one lookup input, `q_decompose * c`, matched against the table's value column. */
  function LookupInput(q: Selector, runningSum: Column, k: nat): Expr {
    Product(Selected(q), ChunkExpr(runningSum, k))
  }

  /** `DecomposeConfig::configure` with LOOKUP_NUM_BITS = k. */
  function Configure(cs: ConstraintSystem, k: nat): (ConstraintSystem, DecomposeConfig) {
    var (cs1, table) := TaggedTable.Configure(cs);
    var (cs2, q) := NewSelector(cs1);
    var (cs3, runningSum) := AdviceColumn(cs2);
    var cs4 := AddLookup(cs3, [(LookupInput(q, runningSum, k), table.value)]);
    (cs4, DecomposeConfig(runningSum, q, table))
  }

  lemma ConfigureLayout(k: nat)
    ensures Configure(EmptySystem(), k).1
            == DecomposeConfig(Column(0), Selector(0), TaggedTable.RangeCheckTable(TableColumn(0), TableColumn(1)))
    ensures Configure(EmptySystem(), k).0.lookups
            == [Lookup([(LookupInput(Selector(0), Column(0), k), TableColumn(0))])]
  {
  }

  // -----------------------------------------------------------------------
  // The running sum over the integers
  // -----------------------------------------------------------------------

  /** z_i for an honest witness: `value` shifted right by K bits i times. */
  function RunningSum(value: nat, k: nat, i: nat): nat {
    if i == 0 then value else ShiftRight(RunningSum(value, k, i - 1), k)
  }

  /** The chunk c_i = z_i - 2^K * z_{i+1} of an honest witness. */
  function HonestChunk(value: nat, k: nat, i: nat): int {
    RunningSum(value, k, i) - Pow2(k) * RunningSum(value, k, i + 1)
  }

  /** Sum of c_i * 2^{iK} over a sequence of chunks. */
  function ChunkSum(cs: seq<int>, k: nat): int {
    if |cs| == 0 then 0 else cs[0] + Pow2(k) * ChunkSum(cs[1..], k)
  }

  lemma DivDiv(x: nat, a: nat, b: nat)
    requires a > 0 && b > 0
    ensures (x / a) / b == x / (a * b)
  {
    var q1, r1 := x / a, x % a;
    var q2, r2 := q1 / b, q1 % b;
    assert x == a * q1 + r1;
    assert q1 == b * q2 + r2;
    assert a * q1 == (a * b) * q2 + a * r2;
    assert a * r2 <= a * (b - 1) by {
      MulLe(a, r2, b - 1);
    }
    assert a * (b - 1) == a * b - a;
    DivModUnique(x, a * b, q2, a * r2 + r1);
  }

  lemma MulLe(a: nat, x: nat, y: nat)
    requires x <= y
    ensures a * x <= a * y
  {
    assert a * y == a * x + a * (y - x);
  }

  /** z_i is `value / 2^{iK}`. */
  lemma {:induction false} RunningSumClosed(value: nat, k: nat, i: nat)
    ensures RunningSum(value, k, i) == value / Pow2(i * k)
  {
    if i > 0 {
      RunningSumClosed(value, k, i - 1);
      DivDiv(value, Pow2((i - 1) * k), Pow2(k));
      assert (i - 1) * k + k == i * k;
      Pow2Add((i - 1) * k, k);
    }
  }

  /** The honest chunks are the K-bit digits: c_i = z_i mod 2^K. */
  lemma HonestChunkDigit(value: nat, k: nat, i: nat)
    ensures HonestChunk(value, k, i) == RunningSum(value, k, i) % Pow2(k)
    ensures 0 <= HonestChunk(value, k, i) < Pow2(k)
  {
    var z, t := RunningSum(value, k, i), Pow2(k);
    assert RunningSum(value, k, i + 1) == ShiftRight(z, k) == z / t;
    assert z == t * (z / t) + z % t;
  }

  /** z_C is zero exactly when the value fits in C*K bits. */
  lemma FinalZeroIff(value: nat, k: nat, c: nat)
    ensures RunningSum(value, k, c) == 0 <==> value < Pow2(c * k)
  {
    RunningSumClosed(value, k, c);
    QuotientZeroIff(value, Pow2(c * k));
  }

  /** A quotient is zero exactly when the dividend is below the divisor. */
  lemma QuotientZeroIff(x: nat, d: nat)
    requires d > 0
    ensures x / d == 0 <==> x < d
  {
    if x < d {
      DivModUnique(x, d, 0, x);
    } else {
      var q, r := x / d, x % d;
      assert x == d * q + r && r < d;
      assert d * q > 0;
    }
  }

  /** For a value that fits, the last running-sum term is the last chunk: z_{C-1} = c_{C-1}. */
  lemma LastTermIsLastChunk(value: nat, k: nat, c: nat)
    requires c > 0 && value < Pow2(c * k)
    ensures RunningSum(value, k, c - 1) == HonestChunk(value, k, c - 1)
  {
    FinalZeroIff(value, k, c);
    assert RunningSum(value, k, c) == ShiftRight(RunningSum(value, k, c - 1), k);
  }

  /** Exact telescoping: z_i = c_i + 2^K z_{i+1} and z_C = 0 give z_0 = sum c_i 2^{iK}. */
  lemma {:induction false} Telescope(zs: seq<int>, cs: seq<int>, k: nat)
    requires |zs| == |cs| + 1
    requires forall i :: 0 <= i < |cs| ==> zs[i] == cs[i] + Pow2(k) * zs[i + 1]
    requires zs[|cs|] == 0
    ensures zs[0] == ChunkSum(cs, k)
  {
    if |cs| > 0 {
      Telescope(zs[1..], cs[1..], k);
    }
  }

  /** The honest running sum of a value that fits in C*K bits. */
  function HonestSums(value: nat, k: nat, c: nat): (zs: seq<int>)
    ensures |zs| == c + 1 && forall i :: 0 <= i <= c ==> zs[i] == RunningSum(value, k, i)
  {
    seq(c + 1, i requires 0 <= i <= c => RunningSum(value, k, i))
  }

  function HonestChunks(value: nat, k: nat, c: nat): (cs: seq<int>)
    ensures |cs| == c && forall i :: 0 <= i < c ==> cs[i] == HonestChunk(value, k, i)
  {
    seq(c, i requires 0 <= i < c => HonestChunk(value, k, i))
  }

  /** A value below 2^{CK} is the sum of its honest chunks weighted by 2^{iK}. */
  lemma HonestDecomposition(value: nat, k: nat, c: nat)
    requires value < Pow2(c * k)
    ensures value == ChunkSum(HonestChunks(value, k, c), k)
    ensures forall i :: 0 <= i < c ==> 0 <= HonestChunks(value, k, c)[i] < Pow2(k)
  {
    FinalZeroIff(value, k, c);
    Telescope(HonestSums(value, k, c), HonestChunks(value, k, c), k);
    forall i | 0 <= i < c
      ensures 0 <= HonestChunks(value, k, c)[i] < Pow2(k)
    {
      HonestChunkDigit(value, k, i);
    }
  }

  /** Chunks of K bits sum to less than 2^{CK}. */
  lemma {:induction false} ChunkSumBound(cs: seq<int>, k: nat)
    requires forall i :: 0 <= i < |cs| ==> 0 <= cs[i] < Pow2(k)
    ensures 0 <= ChunkSum(cs, k) < Pow2(|cs| * k)
  {
    if |cs| > 0 {
      var rest := cs[1..];
      ChunkSumBound(rest, k);
      var m := |rest| * k;
      assert m + k == |cs| * k;
      Pow2Add(m, k);
      DigitStep(cs[0], ChunkSum(rest, k), Pow2(k), Pow2(m));
    }
  }

  /** One more digit: d + t*s < t*b when d < t and s < b. */
  lemma DigitStep(d: int, s: int, t: nat, b: nat)
    requires 0 <= d < t && 0 <= s < b
    ensures 0 <= d + t * s < b * t
  {
    MulLe(t, s, b - 1);
    assert t * (b - 1) == t * b - t;
    assert t * b == b * t;
  }

  // -----------------------------------------------------------------------
  // The lookup in F_p
  // -----------------------------------------------------------------------

  /** The chunk expression is `z_cur - 2^K * z_next` in F_p. */
  lemma EvalChunk(p: Modulus, runningSum: Column, k: nat, w: Witness, row: int)
    ensures Eval(p, ChunkExpr(runningSum, k), w, row)
            == (CellValue(w, runningSum, row) - Pow2(k) * CellValue(w, runningSum, row + 1)) % p
  {
    var a, b, t := CellValue(w, runningSum, row), CellValue(w, runningSum, row + 1), Pow2(k);
    EvalMinus(p, Advice(runningSum, 0), Scaled(Advice(runningSum, 1), t), w, row);
    assert Eval(p, Advice(runningSum, 0), w, row) == a % p;
    assert Eval(p, Advice(runningSum, 1), w, row) == b % p;
    assert Eval(p, Scaled(Advice(runningSum, 1), t), w, row) == Mul(p, b % p, t);
    MulReduced(p, b, t);
    assert Mul(p, b % p, t) == (b * t) % p;
    SubReduced(p, a, b * t);
    ModSmall(p, a % p);
    assert b * t == t * b;
  }

  /** The lookup input is the chunk where q_decompose is on, and 0 where it is off. */
  lemma EvalLookupInput(p: Modulus, q: Selector, runningSum: Column, k: nat, w: Witness, row: int)
    ensures SelectorValue(w, q, row) == 1 ==>
              Eval(p, LookupInput(q, runningSum, k), w, row)
              == (CellValue(w, runningSum, row) - Pow2(k) * CellValue(w, runningSum, row + 1)) % p
    ensures SelectorValue(w, q, row) == 0 ==> Eval(p, LookupInput(q, runningSum, k), w, row) == 0
  {
    var c := Eval(p, ChunkExpr(runningSum, k), w, row);
    EvalChunk(p, runningSum, k, w, row);
    assert Eval(p, LookupInput(q, runningSum, k), w, row) == Mul(p, SelectorValue(w, q, row), c);
    MulIdentity(p, c);
    MulZero(p, c);
  }

  /** A row with q_decompose off presents 0, the value of the table's row 0. */
  lemma DisabledRowPasses(p: Modulus, q: Selector, runningSum: Column, k: nat, table: TaggedTable.RangeCheckTable,
                          w: Witness, row: int)
    requires table.value != table.numBits
    requires SelectorValue(w, q, row) == 0
    ensures LookupHolds(p, Lookup([(LookupInput(q, runningSum, k), table.value)]), w,
                        TaggedTable.Rows(table, Pow2(k)), row)
  {
    EvalLookupInput(p, q, runningSum, k, w, row);
    TaggedTable.RowZero(table, Pow2(k));
    assert FromInt(p, 0) == 0;
    assert RowMatches(p, Lookup([(LookupInput(q, runningSum, k), table.value)]), w,
                      TaggedTable.Rows(table, Pow2(k)), row, 0);
  }

  /**
   * With 2^K invertible (an odd prime modulus), the documented step
   * z_{i+1} = (z_i - c_i) * 2^{-K} says the same as c_i = z_i - 2^K z_{i+1},
   * the chunk the lookup checks.
   */
  lemma RecurrenceEquiv(p: Modulus, k: nat, z: nat, next: nat, c: nat, inv: nat)
    requires IsPrime(p) && p > 2 && z < p && next < p && c < p
    requires IsInverseOrZero(p, Pow2(k), inv)
    ensures next == Mul(p, Sub(p, z, c), inv) <==> c == Sub(p, z, Mul(p, next, Pow2(k)))
  {
    var t := Pow2(k);
    Pow2NotMultiple(p, k);
    assert Mul(p, t, inv) == 1;
    MulComm(p, t, inv);
    if next == Mul(p, Sub(p, z, c), inv) {
      MulAssoc(p, Sub(p, z, c), inv, t);
      MulIdentity(p, Sub(p, z, c));
      assert Mul(p, next, t) == Sub(p, z, c);
      SubSub(p, z, c);
      ModSmall(p, c);
    }
    if c == Sub(p, z, Mul(p, next, t)) {
      SubSub(p, z, Mul(p, next, t));
      ModSmall(p, Mul(p, next, t));
      assert Sub(p, z, c) == Mul(p, next, t);
      MulAssoc(p, next, t, inv);
      MulIdentity(p, next);
    }
  }

  // -----------------------------------------------------------------------
  // Soundness and completeness of the lookup
  // -----------------------------------------------------------------------

  /** The chunk z_i - 2^K z_{i+1} of row i, in F_p: what the lookup sees where q_decompose is on. */
  function FieldChunk(p: Modulus, runningSum: Column, k: nat, w: Witness, i: int): nat {
    (CellValue(w, runningSum, i) - Pow2(k) * CellValue(w, runningSum, i + 1)) % p
  }

  /** sum_{j = i}^{c-1} chunk_j * 2^{(j-i)K}, over the witness's chunks. */
  function FieldChunkSum(p: Modulus, runningSum: Column, k: nat, w: Witness, i: nat, c: nat): int
    decreases c - i
  {
    if c <= i then 0
    else FieldChunk(p, runningSum, k, w, i) + Pow2(k) * FieldChunkSum(p, runningSum, k, w, i + 1, c)
  }

  /** Telescoping in F_p: z_i = chunk_i + 2^K z_{i+1} for every row and z_C = 0 give z_i = the chunk sum from i. */
  lemma {:induction false} TelescopeMod(p: Modulus, runningSum: Column, k: nat, w: Witness, i: nat, c: nat)
    requires i <= c && CellValue(w, runningSum, c) % p == 0
    ensures Divides(p, CellValue(w, runningSum, i) % p - FieldChunkSum(p, runningSum, k, w, i, c))
    decreases c - i
  {
    if i < c {
      TelescopeMod(p, runningSum, k, w, i + 1, c);
      var a, b, t := CellValue(w, runningSum, i), CellValue(w, runningSum, i + 1), Pow2(k);
      ChunkCongruence(p, a, b, t);
      var chunk, rest := FieldChunk(p, runningSum, k, w, i), FieldChunkSum(p, runningSum, k, w, i + 1, c);
      assert FieldChunkSum(p, runningSum, k, w, i, c) == chunk + t * rest;
      var x := a % p - chunk - t * (b % p);
      var y := b % p - rest;
      DividesCombination(p, x, y, 1, t);
      Regroup(a % p, chunk, t, b % p, rest);
    } else {
      assert CellValue(w, runningSum, i) % p == 0 * p;
    }
  }

  /** The telescoping step: the two differences recombine into one. */
  lemma Regroup(r: int, chunk: int, t: int, rb: int, rest: int)
    ensures 1 * (r - chunk - t * rb) + t * (rb - rest) == r - (chunk + t * rest)
  {
    assert t * (rb - rest) == t * rb - t * rest;
  }

  /** Chunks of K bits sum to fewer than (c-i)K bits. */
  lemma {:induction false} FieldChunkSumBound(p: Modulus, runningSum: Column, k: nat, w: Witness, i: nat, c: nat)
    requires i <= c
    requires forall j :: i <= j < c ==> FieldChunk(p, runningSum, k, w, j) < Pow2(k)
    ensures 0 <= FieldChunkSum(p, runningSum, k, w, i, c) < Pow2((c - i) * k)
    decreases c - i
  {
    if i < c {
      FieldChunkSumBound(p, runningSum, k, w, i + 1, c);
      var m := (c - (i + 1)) * k;
      assert m + k == (c - i) * k;
      Pow2Add(m, k);
      DigitStep(FieldChunk(p, runningSum, k, w, i), FieldChunkSum(p, runningSum, k, w, i + 1, c), Pow2(k), Pow2(m));
    }
  }

  /** The chunk the lookup sees is congruent to z_i - 2^K z_{i+1} on the reduced cells. */
  lemma ChunkCongruence(p: Modulus, a: int, b: int, t: nat)
    ensures Divides(p, a % p - (a - t * b) % p - t * (b % p))
  {
    ResidueDifference(p, a);
    ResidueDifference(p, b);
    ResidueDifference(p, a - t * b);
    var da, db, dc := a - a % p, b - b % p, (a - t * b) - (a - t * b) % p;
    DividesCombination(p, dc, da, 1, -1);
    DividesCombination(p, 1 * dc + (-1) * da, db, 1, t);
    assert a % p - (a - t * b) % p - t * (b % p) == 1 * (1 * dc + (-1) * da) + t * db;
  }

  /** The value a table row presents at a matching lookup is a K-bit number. */
  lemma MatchedChunk(p: Modulus, table: TaggedTable.RangeCheckTable, k: nat, e: Expr, w: Witness, row: int)
    requires table.value != table.numBits && Pow2(k) <= p
    requires LookupHolds(p, Lookup([(e, table.value)]), w, TaggedTable.Rows(table, Pow2(k)), row)
    ensures Eval(p, e, w, row) < Pow2(k)
  {
    var lk := Lookup([(e, table.value)]);
    var t := TaggedTable.Rows(table, Pow2(k));
    var trow: nat :| RowMatches(p, lk, w, t, row, trow);
    assert (lk.inputs[0].1, trow) in t && Eval(p, lk.inputs[0].0, w, row) == FromInt(p, t[(lk.inputs[0].1, trow)]);
    TaggedTable.RowsKeys(table, Pow2(k));
    TaggedTable.RowsContents(table, Pow2(k), trow);
    ModSmall(p, trow);
  }

  /**
   * Soundness: if the lookup holds with q_decompose on at rows 0 .. C-1, the
   * cell of row C is 0 and p > 2^{CK}, then the value in row 0 is the sum of
   * C chunks of K bits, so below 2^{CK}.
   */
  lemma Sound(p: Modulus, q: Selector, runningSum: Column, k: nat, c: nat, table: TaggedTable.RangeCheckTable,
              w: Witness)
    requires table.value != table.numBits && Pow2(k) <= p && Pow2(c * k) < p
    requires forall i :: 0 <= i < c ==> SelectorValue(w, q, i) == 1
    requires forall i :: 0 <= i < c ==>
      LookupHolds(p, Lookup([(LookupInput(q, runningSum, k), table.value)]), w, TaggedTable.Rows(table, Pow2(k)), i)
    requires CellValue(w, runningSum, c) % p == 0
    ensures CellValue(w, runningSum, 0) % p == FieldChunkSum(p, runningSum, k, w, 0, c)
    ensures CellValue(w, runningSum, 0) % p < Pow2(c * k)
  {
    ChunksSmall(p, q, runningSum, k, c, table, w);
    TelescopeMod(p, runningSum, k, w, 0, c);
    FieldChunkSumBound(p, runningSum, k, w, 0, c);
    SmallMultipleZero(p, CellValue(w, runningSum, 0) % p - FieldChunkSum(p, runningSum, k, w, 0, c));
  }

  /** Every chunk that passes the lookup is a K-bit number. */
  lemma ChunksSmall(p: Modulus, q: Selector, runningSum: Column, k: nat, c: nat, table: TaggedTable.RangeCheckTable,
                    w: Witness)
    requires table.value != table.numBits && Pow2(k) <= p
    requires forall i :: 0 <= i < c ==> SelectorValue(w, q, i) == 1
    requires forall i :: 0 <= i < c ==>
      LookupHolds(p, Lookup([(LookupInput(q, runningSum, k), table.value)]), w, TaggedTable.Rows(table, Pow2(k)), i)
    ensures forall i :: 0 <= i < c ==> FieldChunk(p, runningSum, k, w, i) < Pow2(k)
  {
    forall i | 0 <= i < c
      ensures FieldChunk(p, runningSum, k, w, i) < Pow2(k)
    {
      ChunkSmall(p, q, runningSum, k, table, w, i);
    }
  }

  /** One enabled row whose lookup holds: its chunk is below 2^K. */
  lemma ChunkSmall(p: Modulus, q: Selector, runningSum: Column, k: nat, table: TaggedTable.RangeCheckTable,
                   w: Witness, i: int)
    requires table.value != table.numBits && Pow2(k) <= p
    requires SelectorValue(w, q, i) == 1
    requires LookupHolds(p, Lookup([(LookupInput(q, runningSum, k), table.value)]), w, TaggedTable.Rows(table, Pow2(k)), i)
    ensures FieldChunk(p, runningSum, k, w, i) < Pow2(k)
  {
    MatchedChunk(p, table, k, LookupInput(q, runningSum, k), w, i);
    LookupInputIsChunk(p, q, runningSum, k, w, i);
  }

  /** Where q_decompose is on, the lookup input is the row's field chunk. */
  lemma LookupInputIsChunk(p: Modulus, q: Selector, runningSum: Column, k: nat, w: Witness, i: int)
    requires SelectorValue(w, q, i) == 1
    ensures Eval(p, LookupInput(q, runningSum, k), w, i) == FieldChunk(p, runningSum, k, w, i)
  {
    EvalLookupInput(p, q, runningSum, k, w, i);
  }

  /** The region cells after z_0 .. z_{n-1} of the honest running sum are written on top of `cells`. */
  function ZCells(cells: map<(Column, int), nat>, runningSum: Column, value: nat, k: nat, n: nat)
    : map<(Column, int), nat>
  {
    if n == 0 then cells else ZCells(cells, runningSum, value, k, n - 1)[(runningSum, n - 1) := RunningSum(value, k, n - 1)]
  }

  /** q_decompose on rows 0 .. n-1. */
  function EnabledRows(q: Selector, n: nat): (r: set<(Selector, int)>)
    ensures forall s: Selector, i: int :: (s, i) in r <==> s == q && 0 <= i < n
  {
    set i | 0 <= i < n :: (q, i)
  }

  lemma {:induction false} ZCellsContents(cells: map<(Column, int), nat>, runningSum: Column, value: nat, k: nat,
                                          n: nat, i: nat)
    requires i < n
    ensures (runningSum, i) in ZCells(cells, runningSum, value, k, n)
    ensures ZCells(cells, runningSum, value, k, n)[(runningSum, i)] == RunningSum(value, k, i)
  {
    if i < n - 1 {
      ZCellsContents(cells, runningSum, value, k, n - 1, i);
    }
  }

  /** The witness `assign` leaves on a fresh region: z_0 .. z_C and the selector on rows 0 .. C-1. */
  function HonestWitness(runningSum: Column, q: Selector, value: nat, k: nat, c: nat): Witness {
    Witness(ZCells(map[], runningSum, value, k, c + 1), EnabledRows(q, c))
  }

  /**
   * Completeness: for a canonical value (below p) the honest witness passes
   * the lookup on every row; the rows 0 .. C-1 present the K-bit digits,
   * every other row presents 0. Whether the value fits in C*K bits is left
   * to z_C alone (FinalZeroIff).
   */
  lemma HonestComplete(p: Modulus, q: Selector, runningSum: Column, k: nat, c: nat,
                       table: TaggedTable.RangeCheckTable, value: nat, row: int)
    requires table.value != table.numBits && Pow2(k) <= p
    requires value < p
    ensures LookupHolds(p, Lookup([(LookupInput(q, runningSum, k), table.value)]),
                        HonestWitness(runningSum, q, value, k, c), TaggedTable.Rows(table, Pow2(k)), row)
  {
    var w := HonestWitness(runningSum, q, value, k, c);
    if 0 <= row < c {
      HonestEnabledRow(p, q, runningSum, k, c, table, value, row);
    } else {
      assert (q, row) !in w.enabled;
      DisabledRowPasses(p, q, runningSum, k, table, w, row);
    }
  }

  /** An enabled row of the honest witness presents its K-bit digit, which is a table row. */
  lemma HonestEnabledRow(p: Modulus, q: Selector, runningSum: Column, k: nat, c: nat,
                         table: TaggedTable.RangeCheckTable, value: nat, row: nat)
    requires table.value != table.numBits && Pow2(k) <= p
    requires row < c
    ensures LookupHolds(p, Lookup([(LookupInput(q, runningSum, k), table.value)]),
                        HonestWitness(runningSum, q, value, k, c), TaggedTable.Rows(table, Pow2(k)), row)
  {
    var w := HonestWitness(runningSum, q, value, k, c);
    var t := TaggedTable.Rows(table, Pow2(k));
    assert (q, row) in w.enabled;
    HonestCell(runningSum, q, value, k, c, row);
    HonestCell(runningSum, q, value, k, c, row + 1);
    HonestChunkDigit(value, k, row);
    var digit: nat := HonestChunk(value, k, row);
    ChunkInput(p, q, runningSum, k, w, row, RunningSum(value, k, row), RunningSum(value, k, row + 1), digit);
    ModSmall(p, digit);
    TaggedTable.RowsContents(table, Pow2(k), digit);
    SingleInputMatch(p, LookupInput(q, runningSum, k), table.value, w, t, row, digit);
  }

  /** Row i of the honest witness's running-sum column holds z_i. */
  lemma HonestCell(runningSum: Column, q: Selector, value: nat, k: nat, c: nat, i: nat)
    requires i <= c
    ensures CellValue(HonestWitness(runningSum, q, value, k, c), runningSum, i) == RunningSum(value, k, i)
  {
    ZCellsContents(map[], runningSum, value, k, c + 1, i);
  }

  /** An enabled row whose cells hold z and next presents the chunk z - 2^K next, when that is a field element. */
  lemma ChunkInput(p: Modulus, q: Selector, runningSum: Column, k: nat, w: Witness, row: int,
                   z: nat, next: nat, digit: nat)
    requires SelectorValue(w, q, row) == 1
    requires CellValue(w, runningSum, row) == z && CellValue(w, runningSum, row + 1) == next
    requires digit == z - Pow2(k) * next && digit < p
    ensures Eval(p, LookupInput(q, runningSum, k), w, row) == digit
  {
    LookupInputIsChunk(p, q, runningSum, k, w, row);
    FieldChunkOf(p, runningSum, k, w, row, z, next);
    ModSmall(p, digit);
  }

  /** The field chunk of a row, from the two cells it reads. */
  lemma FieldChunkOf(p: Modulus, runningSum: Column, k: nat, w: Witness, row: int, z: nat, next: nat)
    requires CellValue(w, runningSum, row) == z && CellValue(w, runningSum, row + 1) == next
    ensures FieldChunk(p, runningSum, k, w, row) == (z - Pow2(k) * next) % p
  {
  }

  /** A one-column lookup holds where table row `trow` of its column holds the input's value. */
  lemma SingleInputMatch(p: Modulus, e: Expr, column: TableColumn, w: Witness, t: TableCells, row: int, trow: nat)
    requires (column, trow) in t && Eval(p, e, w, row) == FromInt(p, t[(column, trow)])
    ensures LookupHolds(p, Lookup([(e, column)]), w, t, row)
  {
    assert RowMatches(p, Lookup([(e, column)]), w, t, row, trow);
  }

  // -----------------------------------------------------------------------
  // The witness assignment
  // -----------------------------------------------------------------------

  /**
   * The documented `assign` with N = numBits: copy `value` in as z_0 at
   * offset 0, then for each of the C = N / K chunks enable q_decompose at
   * the current offset, compute the next running-sum term and assign it at
   * the next offset; finally the last term z_C must be 0. `value` is the
   * canonical integer of the field element.
   */
  method Assign(config: DecomposeConfig, r: Region, value: nat, numBits: nat, k: nat)
    returns (res: Outcome<CircuitError>)
    requires 0 < k && numBits % k == 0
    modifies r
    ensures r.cells == ZCells(old(r.cells), config.runningSum, value, k, numBits / k + 1)
    ensures r.enabled == old(r.enabled) + EnabledRows(config.qDecompose, numBits / k)
    ensures res.Pass? <==> value < Pow2(numBits)
    ensures res.Fail? ==> res.error == RunningSumNotZero
  {
    var c := numBits / k;
    var offset: nat := 0;
    // 0. Copy in the witnessed `value`.
    r.AssignAdvice(config.runningSum, offset, value);
    var z := value;
    var i: nat := 0;
    while i < c
      invariant i <= c && offset == i
      invariant z == RunningSum(value, k, i)
      invariant r.cells == ZCells(old(r.cells), config.runningSum, value, k, i + 1)
      invariant r.enabled == old(r.enabled) + EnabledRows(config.qDecompose, i)
    {
      // 3. Enable the selector on the row of z_i.
      r.Enable(config.qDecompose, offset);
      // 1. z_{i+1} = (z_i - c_i) / 2^K, with c_i the low K bits of z_i.
      z := ShiftRight(z, k);
      offset := offset + 1;
      // 2. Assign it on the next row.
      r.AssignAdvice(config.runningSum, offset, z);
      assert EnabledRows(config.qDecompose, i + 1) == EnabledRows(config.qDecompose, i) + {(config.qDecompose, i)};
      i := i + 1;
    }
    // 4. The final running sum z_C must be 0.
    ExactQuotient(numBits, k);
    FinalZeroIff(value, k, c);
    if z != 0 {
      return Fail(RunningSumNotZero);
    }
    return Pass;
  }

  /** The honest chunk z_i - 2^K z_{i+1} is the integer step of `assign`: the low K bits of z_i. */
  lemma ShiftStep(value: nat, k: nat, i: nat)
    ensures RunningSum(value, k, i + 1) == ShiftRight(RunningSum(value, k, i), k)
    ensures RunningSum(value, k, i) == HonestChunk(value, k, i) + Pow2(k) * RunningSum(value, k, i + 1)
  {
    HonestChunkDigit(value, k, i);
  }

  /** K divides N, so N = (N / K) K. */
  lemma ExactQuotient(n: nat, k: nat)
    requires 0 < k && n % k == 0
    ensures n == (n / k) * k
    ensures Pow2(n) == Pow2((n / k) * k)
  {
  }
}
