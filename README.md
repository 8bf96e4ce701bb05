# zkfriendly lab, modelled in Dafny

This project models the logic of a learning repository. Most of that logic is
a set of halo2 circuit gadgets over a prime field. The rest is a small ink!
token contract and the `minigrep` command-line search.

- **Field** (`field.dfy`): F_p as integers mod an abstract prime `p`.
  - `Field.Invert` is the field inverse, computed by extended Euclid.
  - `Field.NoZeroDivisors` is the fact the gadgets' soundness rests on.
- **Circuit** (`circuit.dfy`): the parts of halo2 the gadgets touch.
  - Expressions over advice cells and selectors, and their evaluation at a row.
  - Gates, and lookups into a table.
  - The constraint-system builders (new column, new selector, create gate, add lookup).
  - A region, which holds advice cells and enabled selectors.
  - A write-once table layouter.
- **IsZero and select** (`is_zero.rs`): the IsZero chip, and the
  "if a == 0 { b } else { c }" chip built on it.
- **Polynomial range check** (`eg1_simple.rs`): the fold polynomial gate.
- **Lookup range check** (`eg3_numbits.rs`): a lookup of the pair
  `(value, num_bits)`. The test's `log2` (`eg3_numbits.rs:122-134`) is the
  same halving loop as the table's, so `TaggedTable.Log2` models both.
- **Tables**
  - The tagged table `(i, log2 i)` (`decompose_range_check/table.rs`).
  - The plain value table `0 .. 2^NUM_BITS` (`example3/table.rs`).
- **Running-sum decomposition** (`decompose_range_check.rs`): the chunk
  lookup `q * (z_i - 2^K z_{i+1})`, and the documented running-sum witness.
  - Soundness: every chunk is in the table and `z_C = 0`, so the value lies below 2^(C*K).
  - Completeness: the honest witness satisfies every lookup row.
- **MyToken** (`helloAZ/lib.rs`): balances, total supply and `transfer`, with
  the caller as an explicit parameter.
- **minigrep**: `build` of the argument list, and `search` over `str::lines`.

Cells hold naturals, which `Eval` reduces mod `p`. A cell that was never
assigned reads as 0. A selector is 1 on the rows where it is enabled and 0
elsewhere. A lookup holds at a row when some table row matches every input
tuple component.

## Model

| member | source | states |
|---|---|---|
| Field.Invert | fib/src/is_zero.rs:60 | `invert` of v gives nothing exactly when v ≡ 0 (mod p); otherwise it gives an element below p whose product with v is 1 |
| Field.InverseUnique | fib/src/is_zero.rs:60 | the inverse-or-zero of a value in a prime field is unique |
| Field.InverseExists | fib/src/is_zero.rs:60 | every value has an inverse-or-zero in a prime field |
| Field.NoZeroDivisors | fib/src/is_zero.rs:49-50 | in a prime field a product is 0 exactly when one factor is 0 |
| IsZeroGadget.IsZeroAssign | fib/src/is_zero.rs:59-69 | writes only the inverse cell at offset 0, holding v⁻¹ for v ≠ 0 and 0 for v = 0; selectors are untouched |
| IsZeroGadget.EvalIsZero | fib/src/is_zero.rs:45-50 | the gate evaluates to `enable * v * (1 - v * inv)` in the field |
| IsZeroGadget.IsZeroCompleteNonzero | fib/src/is_zero.rs:38-51 | for v ≠ 0 with the assigned inverse, `1 - v*inv` is 0 and so is the gate, whatever the enable |
| IsZeroGadget.IsZeroAtZero | fib/src/is_zero.rs:38-51 | for v = 0, `1 - v*inv` is 1 and the gate is 0 for every inverse cell |
| IsZeroGadget.IsZeroSound | fib/src/is_zero.rs:38-51 | enabled, v ≠ 0 and the gate at 0 force `v * inv = 1`, so the cell is the inverse and `1 - v*inv` is 0 |
| IsZeroGadget.IsZeroZeroInverseRejected | fib/src/is_zero.rs:42-50 | enabled with inverse 0, the gate evaluates to v itself, so a nonzero v with inverse 0 fails |
| IsZeroGadget.IsZeroDisabled | fib/src/is_zero.rs:45-50 | with the enable expression at 0 the gate holds for any cells |
| IsZeroGadget.FunctionAssign | fib/src/is_zero.rs:137-161 | writes a, b, c, the inverse of a, and `out` = b if a = 0 else c, all at row 0, and enables the selector at row 0 only |
| IsZeroGadget.FunctionConfigureLayout | fib/src/is_zero.rs:91-135 | the chip gets four advice columns with equality, a selector, the inverse column, the is-zero gate, and a select gate fed the constant 0 |
| IsZeroGadget.SelectGateAsWritten | fib/src/is_zero.rs:112-125 | with the returned `is_zero_expr` = 0, the first select constraint is identically 0 and the second is `selector * (b - out)` |
| IsZeroGadget.FunctionDisabledRowHolds | fib/src/is_zero.rs:112-125 | on any row where the selector is off, every gate of the chip holds whatever the cells hold |
| IsZeroGadget.FunctionOffRowsHold | fib/src/is_zero.rs:137-161 | on every row but 0 the selector is off and all gates of the chip hold |
| IsZeroGadget.FunctionAssignedSatisfiedIff | fib/src/is_zero.rs:91-161 | the assigned witness satisfies row 0 exactly when a = 0 or b = c |
| IsZeroGadget.FunctionTestIsZero | fib/src/is_zero.rs:196-207 | the test witness a = 0, b = 1, c = 2 satisfies every gate on every row |
| IsZeroGadget.FunctionNonzeroRejected | fib/src/is_zero.rs:119-154 | the honest witness a = 5, b = 1, c = 2 (out = 2) fails the select gate |
| IsZeroGadget.WiringAsWrittenSelectsC | fib/src/is_zero.rs:122-123 | with the intended is-zero expression but the wiring as written, a = 0 forces out = c, the opposite of `assign` |
| IsZeroGadget.FunctionConfigureIntendedLayout | fib/src/is_zero.rs:91-135 | the corrected chip passes `1 - a*inv` to the select gate, with the constraints swapped |
| IsZeroGadget.EvalSelectIntended | fib/src/is_zero.rs:119-124 | with the selector on, the corrected constraints reduce to `b - out` where a is zero and to `c - out` where it is not |
| IsZeroGadget.IntendedComplete | fib/src/is_zero.rs:112-161 | the corrected chip accepts the witness `assign` writes, on every row |
| IsZeroGadget.IntendedSound | fib/src/is_zero.rs:112-125 | an enabled row of the corrected chip that satisfies its gates has out = b when a ≡ 0 and out = c otherwise |
| IsZeroGadget.IntendedSelectSound | fib/src/is_zero.rs:38-125 | the same for any columns: the is-zero gate and the corrected select gate together pin out down |
| PolyRangeCheck.Assign | halo2/src/range_check/eg1_simple.rs:39-50 | writes only the value at row 0 and enables only the selector at row 0 |
| PolyRangeCheck.CircuitLayout | halo2/src/range_check/eg1_simple.rs:18-37 | the configuration is one advice column, one selector and the gate `selector * fold` |
| PolyRangeCheck.FallingProductZero | halo2/src/range_check/eg1_simple.rs:24-28 | (x - 0)…(x - (n-1)) is 0 in a prime field exactly when x is the residue of some i < n |
| PolyRangeCheck.EvalRangeFold | halo2/src/range_check/eg1_simple.rs:24-28 | the fold seeded with `value` evaluates to `value * Π_{i<RANGE} (value - i)` |
| PolyRangeCheck.RangeFoldDegree | halo2/src/range_check/eg1_simple.rs:24-29 | the fold has degree RANGE + 1, and the gated gate RANGE + 2 |
| PolyRangeCheck.RangeFoldZero | halo2/src/range_check/eg1_simple.rs:24-28 | for RANGE ≤ p the fold is 0 exactly when the value is below RANGE or is 0 |
| PolyRangeCheck.GateIff | halo2/src/range_check/eg1_simple.rs:21-30 | with the selector on, the gate holds exactly when value mod p is below RANGE or is 0 |
| PolyRangeCheck.GateDisabled | halo2/src/range_check/eg1_simple.rs:29 | with the selector off the gate holds for any value |
| PolyRangeCheck.Synthesize | halo2/src/range_check/eg1_simple.rs:78-87 | `assign` on a fresh region of the test circuit leaves exactly the value at row 0 and the selector on at row 0, the witness the end-to-end lemmas are about |
| PolyRangeCheck.CircuitSatisfiedIff | halo2/src/range_check/eg1_simple.rs:18-50 | for 0 < RANGE ≤ p, the assigned circuit holds on every row exactly when value < RANGE |
| PolyRangeCheck.RangeCheckTest | halo2/src/range_check/eg1_simple.rs:91-102 | RANGE 8 accepts each i < 8 |
| TaggedTable.FloorLog2Unique | halo2/src/decompose_range_check/table.rs:29-41 | the bounds 2^r ≤ x < 2^(r+1) determine r |
| TaggedTable.Log2 | halo2/src/decompose_range_check/table.rs:29-41 | the loop returns ⌊log2 x⌋: 0 for x ≤ 1, else the r with 2^r ≤ x < 2^(r+1) |
| TaggedTable.Load | halo2/src/decompose_range_check/table.rs:43-68 | succeeds exactly when the two columns differ and none of rows 0 .. 2^NUM_BITS-1 is already written; it then writes (i, log2 i) at offset i, value before num_bits, row by row |
| TaggedTable.LoadedAbove | halo2/src/decompose_range_check/table.rs:47-61 | loading n rows leaves the cells at rows n and above as they were |
| TaggedTable.RowsKeys | halo2/src/decompose_range_check/table.rs:48-59 | the loaded table occupies exactly the two columns at rows below 2^NUM_BITS |
| TaggedTable.RowsContents | halo2/src/decompose_range_check/table.rs:48-59 | row i holds (i, log2 i) |
| TaggedTable.RowZero | halo2/src/decompose_range_check/table.rs:49-52 | row 0 is (0, 0) |
| TaggedTable.ValueSet | halo2/src/decompose_range_check/table.rs:43-61 | the value column holds exactly the numbers below 2^NUM_BITS |
| TaggedTable.WriteLogDistinct | halo2/src/decompose_range_check/table.rs:48-61 | the load makes 2 writes per row, no cell twice, the k-th write at offset k/2 |
| ValueTable.Load | halo2/src/range_check/example3/table.rs:26-41 | succeeds exactly when rows 0 .. 2^NUM_BITS-1 are unwritten; it then writes i at offset i |
| ValueTable.LoadedAbove | halo2/src/range_check/example3/table.rs:30-34 | loading n rows leaves the cells at rows n and above as they were |
| ValueTable.RowsSpec | halo2/src/range_check/example3/table.rs:30-33 | the table holds exactly the value-column cells below 2^NUM_BITS, the cell at offset i holding i |
| ValueTable.ValueSet | halo2/src/range_check/example3/table.rs:26-41 | the value set is exactly [0, 2^NUM_BITS) |
| ValueTable.ThreeBits | halo2/src/range_check/example3/table.rs:26-41 | with 3 bits the table contains x exactly when x < 8 |
| ValueTable.WriteLogOffsets | halo2/src/range_check/example3/table.rs:30-34 | the load writes 2^NUM_BITS cells, the k-th at offset k, so each offset 0 .. 2^NUM_BITS-1 once |
| LookupRangeCheck.Assign | halo2/src/range_check/eg3_numbits.rs:53-75 | writes value and num_bits at row 0 and enables the selector at row 0 only |
| LookupRangeCheck.CircuitLayout | halo2/src/range_check/eg3_numbits.rs:25-51 | the configuration is two advice columns, a complex selector, the table and one lookup of the two gated cells |
| LookupRangeCheck.EvalGated | halo2/src/range_check/eg3_numbits.rs:38-41 | a gated cell evaluates to the cell when the selector is on and to 0 when it is off |
| LookupRangeCheck.LookupOn | halo2/src/range_check/eg3_numbits.rs:33-42 | with the selector on, the lookup holds exactly when (value, num_bits) is some table row |
| LookupRangeCheck.LookupOff | halo2/src/range_check/eg3_numbits.rs:38-41 | with the selector off both lookup inputs evaluate to 0 |
| LookupRangeCheck.SmallLog | halo2/src/range_check/eg3_numbits.rs:64-69 | log2 of a field element is itself a field element, so `F::from` keeps it |
| LookupRangeCheck.LoadedLookupIff | halo2/src/range_check/eg3_numbits.rs:13-42 | against the 3-bit table, an enabled row holds exactly when value < 8 and num_bits = log2 value |
| LookupRangeCheck.DisabledRowPasses | halo2/src/range_check/eg3_numbits.rs:38-41 | a row with the selector off passes, since it presents (0, 0), the table's row 0 |
| LookupRangeCheck.Synthesize | halo2/src/range_check/eg3_numbits.rs:105-118 | `assign` on a fresh region of the test circuit leaves exactly value and num_bits at row 0 and the selector on at row 0, the witness the test lemma is about |
| LookupRangeCheck.RangeCheckTest | halo2/src/range_check/eg3_numbits.rs:105-148 | for each i < 8 with num_bits = log2 i, the lookup holds on every row |
| Decompose.ConfigureLayout | halo2/src/decompose_range_check.rs:58-80 | the configuration is one advice column, one complex selector, the tagged table and one lookup of `q * (z_cur - 2^K z_next)` into the value column |
| Decompose.EvalChunk | halo2/src/decompose_range_check.rs:63-72 | the chunk expression is `z_cur - 2^K * z_next` in the field |
| Decompose.EvalLookupInput | halo2/src/decompose_range_check.rs:63-72 | the lookup input is that chunk when q is on and 0 when q is off |
| Decompose.DisabledRowPasses | halo2/src/decompose_range_check.rs:72 | a row with q off presents 0, which the tagged table's row 0 contains, so the lookup holds |
| Decompose.RecurrenceEquiv | halo2/src/decompose_range_check.rs:27-34 | `z_{i+1} = (z_i - c_i) * 2^-K` holds exactly when `c_i = z_i - 2^K z_{i+1}` |
| Decompose.RunningSumClosed | halo2/src/decompose_range_check.rs:24-34 | the honest z_i is ⌊value / 2^(iK)⌋ |
| Decompose.HonestChunkDigit | halo2/src/decompose_range_check.rs:27-34 | the honest chunk c_i is z_i mod 2^K, so it lies in [0, 2^K) |
| Decompose.FinalZeroIff | halo2/src/decompose_range_check.rs:34 | the honest z_C is 0 exactly when value < 2^(CK) |
| Decompose.LastTermIsLastChunk | halo2/src/decompose_range_check.rs:32 | for value < 2^(CK), z_{C-1} = c_{C-1} |
| Decompose.Telescope | halo2/src/decompose_range_check.rs:21-34 | if z_i = c_i + 2^K z_{i+1} for each i and z_C = 0, then z_0 = Σ c_i 2^(iK) |
| Decompose.HonestDecomposition | halo2/src/decompose_range_check.rs:21-34 | for value < 2^(CK) the honest chunks lie in [0, 2^K) and sum back to the value |
| Decompose.ChunkSumBound | halo2/src/decompose_range_check.rs:21-22 | C chunks in [0, 2^K) sum to less than 2^(CK) |
| Decompose.TelescopeMod | halo2/src/decompose_range_check.rs:21-34 | in the field, if z_C ≡ 0 then z_i ≡ Σ_{i≤j<C} c_j 2^((j-i)K) for the field chunks c_j |
| Decompose.FieldChunkSumBound | halo2/src/decompose_range_check.rs:21-22 | field chunks below 2^K give a chunk sum below 2^((C-i)K) |
| Decompose.MatchedChunk | halo2/src/decompose_range_check.rs:63-72 | an input that the lookup finds in the table's value column is below 2^K |
| Decompose.ChunksSmall | halo2/src/decompose_range_check.rs:63-72 | lookups passing on rows 0 .. C-1 with q on make every field chunk lie below 2^K |
| Decompose.Sound | halo2/src/decompose_range_check.rs:13-34 | if q is on and the lookup holds on rows 0 .. C-1, z_C ≡ 0 and 2^(CK) < p, then z_0 equals the chunk sum and lies below 2^(CK) |
| Decompose.ZCellsContents | halo2/src/decompose_range_check.rs:82-111 | the witness holds the honest z_i at row i of the running-sum column for every i ≤ C |
| Decompose.EnabledRows | halo2/src/decompose_range_check.rs:36-44 | the selector is on exactly at rows 0 .. C-1, not on the z_C row |
| Decompose.HonestComplete | halo2/src/decompose_range_check.rs:21-44 | for any value below p, the honest witness satisfies the lookup on every row; the range itself rests on z_C = 0 alone |
| Decompose.ShiftStep | halo2/src/decompose_range_check.rs:27-34 | z_{i+1} is z_i shifted right by K, and z_i = c_i + 2^K z_{i+1} |
| Decompose.Assign | halo2/src/decompose_range_check.rs:82-111 | writes z_0 = value and z_1 .. z_C at rows 0 .. C, enables q on rows 0 .. C-1, and reports success exactly when value < 2^NUM_BITS |
| Token.MyToken.constructor | helloAZ/lib.rs:22-29 | the whole supply belongs to the caller and no one else has a balance |
| Token.MyToken.BalanceOf | helloAZ/lib.rs:32-34 | an account never inserted has balance 0, any other its stored balance |
| Token.MyToken.TotalSupply | helloAZ/lib.rs:37-39 | `total_supply` returns the recorded supply |
| Token.DeployedSupply | helloAZ/lib.rs:22-39 | after `new(s)`, `total_supply()` returns s, and still returns s after a transfer to another account |
| Token.MyToken.Transfer | helloAZ/lib.rs:42-59 | refuses with InsufficientBalance exactly when amount exceeds the caller's balance, then changing nothing; otherwise writes caller := balance - amount, then to := old balance of to + amount; the supply never changes |
| Token.TransferMoves | helloAZ/lib.rs:42-59 | between distinct accounts the caller loses amount, `to` gains it, their sum is kept and every other balance is unchanged |
| Token.SelfTransferMints | helloAZ/lib.rs:45-56 | a transfer to oneself raises the caller's balance and the sum of balances by amount |
| Token.TransferExample | helloAZ/lib.rs:82-101 | 100 minted to alice, 50 sent to bob, leaves 50 each |
| Token.NewSupply | helloAZ/lib.rs:22-39 | after `new`, the caller holds the supply, others hold 0, and the balances sum to the supply |
| Token.TransferConserves | helloAZ/lib.rs:48-56 | a transfer between distinct accounts keeps the sum of all balances |
| Token.SumUpdate | helloAZ/lib.rs:55-56 | writing one balance changes the sum of balances by the difference |
| Token.TransferIntendedConserves | helloAZ/lib.rs:42-59 | the corrected transfer keeps the sum of balances for every pair, a self-transfer included |
| Minigrep.Build | learningRust/minigrep/src/minigrep.rs:8-17 | fails with "invalid arguments" exactly when there are fewer than 3 arguments; otherwise file_path is args[1] and query is args[2] |
| Minigrep.LinesHaveNoNewline | learningRust/minigrep/src/minigrep.rs:32 | no line of the split contains '\n' |
| Minigrep.LinesJoin | learningRust/minigrep/src/minigrep.rs:32 | without '\r', joining the lines with '\n' gives back the text, up to one final '\n' |
| Minigrep.ContainsIff | learningRust/minigrep/src/minigrep.rs:33 | `contains` holds exactly when the query occurs at some position of the line |
| Minigrep.Search | learningRust/minigrep/src/minigrep.rs:29-39 | the result is the lines of contents that contain the query, in order |
| Minigrep.FilterConcat | learningRust/minigrep/src/minigrep.rs:32-36 | filtering a concatenation is the concatenation of the filtered parts, so the line order is kept |
| Minigrep.FilterMembers | learningRust/minigrep/src/minigrep.rs:30-38 | a string is in the result exactly when it is one of the lines and contains the query |
| Minigrep.FilterLength | learningRust/minigrep/src/minigrep.rs:30-38 | the result has no more lines than the input |
| Minigrep.FilterEmptyQuery | learningRust/minigrep/src/minigrep.rs:33 | the empty query keeps every line |
| Minigrep.FilterNoneFound | learningRust/minigrep/src/minigrep.rs:30-38 | if no line contains the query the result is empty |

## Left out

- halo2 itself is not modelled. This covers the real `ConstraintSystem`, the layouter, the regions, `MockProver`, floor planners, proving and copy-constraint checking. Only the cell map, the enabled selectors, gates and lookups are kept.
- `MockProver`'s `CellNotAssigned` error is not modelled: a cell a gate reads but no region assigned simply reads as 0.
- Equality-enabled columns are recorded, but the permutation argument is not checked.
- A lookup holds when some table row matches. How halo2 fills unused table rows is not modelled.
- Circuit.TableLayouter.AssignCell: the failure on a cell written twice is a simplification of halo2's own table checks.
- The `FnOnce` closures the IsZero chip takes are modelled as the expressions actually passed in: the selector, and `a` at the current row.
- The concrete pasta field is not modelled. The modulus `p` is a parameter, and primality or size is required where a statement needs it.
- The body of `DecomposeConfig::assign` before its step list is not modelled, because it does not compile (`to_le_bytes`, `evaluate`, `todo!()`). `Decompose.Assign` models the computation its doc comment and step list describe instead.
- Decompose.Assign: a nonzero final z_C is reported as the `RunningSumNotZero` outcome, where the circuit would leave it to a failing constraint.
- Decompose.Assign: K must divide NUM_BITS (C = NUM_BITS / K), as the doc comment states. K = 0 is excluded.
- The lookup range check's own `table` module (`halo2/src/range_check/eg3_numbits/table.rs`) is not part of this model. That table's two columns (value, num_bits) are taken to be the tagged table of `decompose_range_check/table.rs`.
- TaggedTable.Load, ValueTable.Load: NUM_BITS is required to be below 64. That is the Rust code's `1 << NUM_BITS` on a `u64`. The shift overflow itself is not modelled.
- The `RANGE` generic in the lookup range check is unused, as are the `PhantomData` markers. Neither has behaviour, so neither is modelled.
- The "(0,0) is a bug" comment in `decompose_range_check/table.rs` is not followed. Row (0, 0) is kept, because it is what disabled rows present (`Decompose.DisabledRowPasses`, `LookupRangeCheck.DisabledRowPasses`).
- The extra factor `value` in the fold of the polynomial range check is kept as written. It adds one to the degree. It also adds 0 to the accepted values, which for RANGE ≥ 1 is accepted anyway. With RANGE = 0 the gate accepts 0.
- Token.MyToken.Transfer: requires that `balance(to) + amount` fits in a u128 whenever the guard passes. In that case the contract would panic, and a panic is not modelled.
- The ink! runtime is not modelled: `env().caller()` becomes a parameter, `Mapping` becomes a Dafny map, and the SCALE codec derives and attributes are dropped.
- `AccountId` is an opaque number.
- Minigrep I/O is not modelled: `run`, `main.rs`, `env::args`, reading the file and printing the result.
- Minigrep lines: `Lines` mirrors Rust's `str::lines`. It splits after each '\n', strips a '\r' before the '\n', and produces no final empty line. A '\r' on a final line without '\n' is kept.
- `hello_zkp/src/main.rs` is not modelled. It is an unfinished skeleton with no configuration and `todo!()` bodies.
- The React UI is not modelled. It has no logic to verify.

## Findings

| source | as written | input that shows it | evidently intended | confidence | as-written member | corrected member |
|---|---|---|---|---|---|---|
| fib/src/is_zero.rs:36-124 | `IsZeroChip::configure` returns the constant 0 as `is_zero_expr`; the real `1 - a*inv` is a local shadow inside the gate closure. The select gate then reduces to `selector * (b - out)`, and even the real expression would be wired the wrong way round | a = 5, b = 1, c = 2 with out = c as `assign` writes: the row fails | out = b when a = 0, out = c otherwise, enforced by the gate | high, not executed | IsZeroGadget.FunctionNonzeroRejected | IsZeroGadget.IntendedSound |
| helloAZ/lib.rs:45-56 | `transfer` reads both balances, then inserts caller := from − amount and to := to_balance + amount; when to == caller the second insert overwrites the first | caller balance 100, transfer 50 to the caller: the balance becomes 150 | a transfer to oneself leaves the balances unchanged, so the sum of balances stays the total supply | high, not executed | Token.SelfTransferMints | Token.TransferIntendedConserves |
