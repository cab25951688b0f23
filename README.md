# HeteroCL imperative DSL, schedule primitives and type mapping in Dafny

This project is a verified reference model of three parts of HeteroCL:

- **The imperative DSL the tests exercise.** This covers:
  - bit and slice reads and writes on fixed-width integers;
  - `reverse()`;
  - packed struct fields;
  - the loops `for_`, `while_` and `mutate`;
  - the `if_` / `elif_` / `else_` chains built while tracing a kernel;
  - the rejection of `break_`.
- **The schedule primitives** `split`, `fuse`, `reorder`, `unroll` and `compute_at`, on a stage's ordered list of axes, and the loop nests `hcl.lower` produces from them.
- **The type mapping of `python/heterocl/utils.py`**: `hcl_dtype_to_mlir`, `get_mlir_dtype_str`, `get_dtype_str` and `get_extra_type_hints`.

The tracer and the scheduler are not part of this model; `tests/mlir/test_dsl_basic.py` and `tests/mlir/test_schedule_imperative.py` are what fix their behaviour. The model states what those tests assert as contracts over all inputs, and proves each concrete test outcome from them.

## Modules

| file | module | what it holds |
|---|---|---|
| `wrappers.dfy` | `Wrappers` | `Option` and `Result` |
| `bits.dfy` | `BitValue` | w-bit values as bit patterns: bit and slice reads and writes, bit reversal, and their mask-and-shift forms |
| `struct_layout.dfy` | `StructLayout` | struct fields packed from the least significant bit in declaration order |
| `bit_access.dfy` | `BitAccess` | kernel expressions over one tensor element (`A[x]`, `+`, `[i]`, `[lo:hi]`, `.reverse()`), `compute`, and the slice-store loop that ignores writes through non-storage expressions |
| `iter_space.dfy` | `IterSpace` | the row-major index tuples of a shape |
| `loops.dfy` | `Loops` | `for_` ranges and the loop kernels of the tests, on arrays |
| `scope.dfy` | `Scope` | the stack of pending conditional chains; `Tracer` is the class that updates it in place |
| `axis_math.dfy` | `AxisMath` | bound arithmetic of split, fuse and reorder, and the coverage laws |
| `schedule.dfy` | `Schedule` | stages, axes and the five primitives as functions with their error cases |
| `schedule_laws.dfy` | `ScheduleLaws` | what each primitive does to a valid schedule |
| `lowering.dfy` | `Lowering` | the loop nests of a schedule, with producers spliced into their consumers |
| `scheduler.dfy` | `Scheduling` | `Scheduler`, the schedule object updated in place, and the test scenarios |
| `decimal.dfy` | `Decimal` | `str(n)` for widths, and its inverse |
| `type_mapping.dfy` | `TypeMapping` | the `utils.py` functions |

### Modelling notes

- **Integer values.** A value of a w-bit integer type is its bit pattern: a `nat` below 2^w. For a signed type this is the two's complement pattern, and `Value` reads the integer it stands for. A sum adds the integers its operands stand for, a signed operand sign-extended. The sum is signed when either operand is, and it is wide enough that it never wraps (`SumExact`). So `A[x] + 1` cannot wrap before its bits are taken. An integer constant may be negative. `compute` stores each result into an element of the output tensor's type (`Int(32)` by default): the integer is wrapped to that width (`Convert`), so it is sign- or zero-extended when the element is wider and truncated when it is narrower.
- **Stages and axes.** A stage is its ordered list of axes plus the stores in its body, each tagged with its loop depth (the number of enclosing axes).
  - `split` replaces an axis of extent n by `x.outer` (extent ceil(n/f)) and `x.inner`. The inner axis's bound is `min(f, n - f * x.outer)`, kept symbolically as `Clipped(f, n, outer)`.
  - `fuse` replaces two adjacent axes by one whose extent is their product.
  - `reorder` fills the positions of the named axes with those axes in the given order.
  - `unroll` only records an annotation.
  - `compute_at` records that the producer is emitted inside the consumer's loop k. It requires the producer's first k + 1 loops to have the same ranges as the consumer's (`Aligned`).
  - Once a `compute_at` ties two stages, `split`, `fuse` and `reorder` on either are refused with `Attached`, so the recorded axis k keeps naming the loop it was chosen as. A valid schedule (`ValidSched`) keeps every recorded pair aligned.
- **Lowering.** Lowering emits one nest per stage that is not relocated. A relocated producer's first k + 1 loops are elided: its stores appear inside the consumer's first k + 1 loops, renamed to the consumer's index variables, and its deeper loops are emitted there around its deeper stores.
- **MLIR types.** An MLIR type is modelled by the attributes `utils.py` inspects: integer width and signedness, fixed width and fraction, the float kinds, index, struct, and anything else.
  - `hcl_mlir.is_signed_type` is taken to hold for signed and signless integers. That is what lets `Int(b)`, which maps to a signless integer, print as `"int"+b`. It also matches `get_extra_type_hints`, which treats both as `"s"`.
  - `get_mlir_dtype_str` falls through to `None` for a struct or any other type. The model returns `None` there rather than an error.

## Model

| member | source | states |
|---|---|---|
| BitValue.BitIsShiftAndOne | tests/mlir/test_dsl_basic.py:382-427 | `v[i]` equals `(v >> i) & 1` |
| BitValue.SliceIsShiftAndMask | tests/mlir/test_dsl_basic.py:478-523 | `v[lo:hi]` equals `(v >> lo) & (2^(hi-lo) - 1)` |
| BitValue.SliceBits | tests/mlir/test_dsl_basic.py:501-523 | bit j of `v[lo:hi]` is bit lo + j of v |
| BitValue.SetSliceBits | tests/mlir/test_dsl_basic.py:577-601 | after `v[lo:hi] = a`, bits lo..hi-1 hold the low bits of a and every other bit of the w-bit cell is unchanged |
| BitValue.SetSliceLayout | tests/mlir/test_dsl_basic.py:577-601 | the bits of the written cell are the bits below lo, then a's bits, then the bits from hi on |
| BitValue.SetSliceArith | tests/mlir/test_dsl_basic.py:577-601 | slice write in mask form: the old field is removed and `a mod 2^(hi-lo)` is added at lo |
| BitValue.GetSetSlice | tests/mlir/test_dsl_basic.py:577-601 | reading back a written slice gives the written value, truncated to the slice width |
| BitValue.SetGetSlice | tests/mlir/test_dsl_basic.py:577-601 | writing a slice's own value back leaves the cell unchanged |
| BitValue.SetFullSlice | tests/mlir/test_dsl_basic.py:602-632 | writing `[0:w]` stores the written value modulo 2^w |
| BitValue.SetBitArith | tests/mlir/test_dsl_basic.py:453-477 | writing bit i removes the old bit's weight 2^i and adds `(a mod 2) * 2^i`; nothing else of the w-bit cell changes |
| BitValue.ReverseBits | tests/mlir/test_dsl_basic.py:524-553 | bit k of `v.reverse()` at width w is bit w-1-k of v |
| BitValue.ReverseReverse | tests/mlir/test_dsl_basic.py:524-553 | reversing twice gives back the w-bit value |
| BitValue.ReverseSliceBits | tests/mlir/test_dsl_basic.py:524-553 | bit k of `v[lo:hi].reverse()` is bit hi-1-k of v |
| BitValue.FromToBits | tests/mlir/test_dsl_basic.py:382-427 | the bit view of a value and back gives the value modulo 2^w |
| BitValue.ToFromBits | tests/mlir/test_dsl_basic.py:382-427 | a bit pattern read as a value and back is unchanged |
| BitValue.BitsDetermineValue | tests/mlir/test_dsl_basic.py:602-632 | two w-bit values with the same bits are equal |
| StructLayout.FieldIndex | tests/mlir/test_dsl_basic.py:946-965 | the first field of the given name, or None exactly when no field has it |
| StructLayout.FieldWithin | tests/mlir/test_dsl_basic.py:946-965 | every field lies inside the struct's total width |
| StructLayout.FieldsDisjoint | tests/mlir/test_dsl_basic.py:946-965 | an earlier field ends at or before a later field starts |
| StructLayout.PackBitsLayout | tests/mlir/test_dsl_basic.py:946-965 | field k occupies bits Offset(k) .. Offset(k)+width(k) of the packed value, from the least significant bit |
| StructLayout.PackGetField | tests/mlir/test_dsl_basic.py:946-965 | packing then reading field k gives the value of field k, truncated to its width |
| StructLayout.SetFieldGetField | tests/mlir/test_dsl_basic.py:946-965 | writing field k changes field k to the written value and leaves every other field as it was |
| StructLayout.XyStructFields | tests/mlir/test_dsl_basic.py:946-965 | in `{x: UInt(8), y: UInt(8)}`, for any value, x reads the low byte and y the byte above it |
| StructLayout.XyStructScenario | tests/mlir/test_dsl_basic.py:946-965 | `{x: UInt(8), y: UInt(8)}` initialised with 0x0102 has x == 2 and y == 1 |
| BitAccess.Eval | tests/mlir/test_dsl_basic.py:382-427 | an expression's value is a bit pattern of the expression's width |
| BitAccess.SumExact | tests/mlir/test_dsl_basic.py:382-427 | the bit pattern of `l + r`, read at the sum's width and signedness, is exactly the sum of the integers l and r stand for: no wrap-around, signed operands sign-extended |
| BitAccess.SignedRoundTrip | tests/mlir/test_dsl_basic.py:382-427 | an integer that fits n signed bits, stored as an n-bit pattern, reads back as itself |
| BitAccess.SumLowBits | tests/mlir/test_dsl_basic.py:382-404 | `A[x] + c` is one bit wider than `A[x]`, and its low n bits (n at most w) are those of a + c, for any integer c and either signedness |
| BitAccess.AllOnesPlusOne | tests/mlir/test_dsl_basic.py:382-404 | for the all-ones pattern of w bits, `A[x] + 1` is 0 when `A` is signed (it holds -1) and 2^w when unsigned, so the new top bit w is 0 and 1 respectively |
| BitAccess.SumFits | tests/mlir/test_dsl_basic.py:382-404 | the sum of an m-bit and an n-bit value fits max(m, n) + 1 bits |
| BitAccess.EvalBit | tests/mlir/test_dsl_basic.py:382-404 | `e[i]` evaluates all of e and then takes `(value >> i) & 1` |
| BitAccess.EvalSlice | tests/mlir/test_dsl_basic.py:478-500 | `e[lo:hi]` evaluates all of e and then takes the shifted, masked field |
| BitAccess.BitOfSum | tests/mlir/test_dsl_basic.py:382-404 | `(A[x] + 1)[0]` is `(a + 1) mod 2` and `(A[x] + 1)[0:2]` is `(a + 1) mod 4`, for signed and unsigned `A` (a signed one-bit `A` excepted for the slice) |
| BitAccess.SumOfSlices | tests/mlir/test_dsl_basic.py:633-655 | `A[x][0:8] + A[x][8:16]` is well formed and equals the sum of the low byte and the next byte |
| BitAccess.Convert | tests/mlir/test_dsl_basic.py:382-404 | storing an n-bit value into a wo-bit output element gives the one wo-bit pattern congruent to the integer the value stands for |
| BitAccess.ConvertKeepsValue | tests/mlir/test_dsl_basic.py:382-404 | a value the output type can represent reads back from the element, at the output's signedness, as itself |
| BitAccess.ConvertUnsignedKeeps | tests/mlir/test_dsl_basic.py:382-404 | an unsigned value no wider than the output element is stored unchanged |
| BitAccess.Compute | tests/mlir/test_dsl_basic.py:382-427 | a fresh tensor whose element x is the value of e at `A[x]` converted to the output element type, or a width error exactly when e is ill formed |
| BitAccess.ComputeUnsigned | tests/mlir/test_dsl_basic.py:382-427 | a bit, a slice or an unsigned sum no wider than the output element is stored exactly as evaluated |
| BitAccess.IncrementStored | tests/mlir/test_dsl_basic.py:382-404 | `A[x] + 1` from a signed w-bit tensor stored into a signed w-bit tensor holds A[x] + 1 when that fits (-5 + 1 is -4), and wraps to -2^(w-1) at the largest value |
| BitAccess.StoreSliceLoop | tests/mlir/test_dsl_basic.py:428-477 | a slice store through `B[i]` writes exactly the slice of every element; through a non-storage expression such as `(B[i] + 1)[0]`, or on a width error, B is unchanged |
| BitAccess.LowBitsStore | tests/mlir/test_dsl_basic.py:577-601 | `B[i][0:n] = a` with a < 2^n gives `(B[i] & ~(2^n - 1)) \| a` |
| BitAccess.LowBitStores | tests/mlir/test_dsl_basic.py:453-477 | `B[i][0] = a` and `B[i][0:2] = a` replace only the low one or two bits |
| BitAccess.ReversedStore | tests/mlir/test_dsl_basic.py:602-632 | `B[i][0:8] = A[i].reverse()` on 8-bit cells makes `B[i]` the bit reversal of `A[i]`; bit k of the result is bit 7-k of `A[i]` |
| IterSpace.BoxMember | tests/mlir/test_dsl_basic.py:656-677 | an index tuple is visited exactly when it lies inside the shape |
| IterSpace.BoxDistinct | tests/mlir/test_dsl_basic.py:656-677 | no index tuple is visited twice |
| IterSpace.BoxAtRank | tests/mlir/test_dsl_basic.py:656-677 | the tuple at an in-shape tuple's row-major position is that tuple |
| IterSpace.RankOfBox | tests/mlir/test_dsl_basic.py:656-677 | the row-major position of the p-th visited tuple is p |
| IterSpace.BoxInBox | tests/mlir/test_dsl_basic.py:656-677 | every visited tuple lies in the shape |
| Loops.RangeAt | tests/mlir/test_dsl_basic.py:166-249 | element k of `range(lo, hi, step)` is lo + k * step, and the next value fails the loop test |
| Loops.RangeLength | tests/mlir/test_dsl_basic.py:166-249 | the trip count of a unit-step loop is its distance to the bound |
| Loops.DescendingRange | tests/mlir/test_dsl_basic.py:230-249 | `for_(hi-1, lo-1, -1)` visits `range(lo, hi)` in reverse |
| Loops.ConcreteRanges | tests/mlir/test_dsl_basic.py:166-249 | the ranges of `(0,10,1)`, `(4,8,1)`, `(0,10,2)` and `(9,-1,-1)` |
| Loops.ForStoreIndex | tests/mlir/test_dsl_basic.py:166-249 | after `for_(lo, hi, step) as i: A[i] = i`, the visited elements hold their index and the others keep their value |
| Loops.SumBelowClosed | tests/mlir/test_dsl_basic.py:250-272 | 0 + ... + (m-1) is m(m-1)/2 |
| Loops.ForTriangle | tests/mlir/test_dsl_basic.py:250-272 | on `Int(32)` elements, with an inner loop starting at the outer index, element j gains 0 + 1 + ... + j = (j + 1) j / 2, wrapped to 32-bit two's complement |
| Loops.AddFrom | tests/mlir/test_dsl_basic.py:253-254 | the inner loop adds i, with 32-bit wrap-around, to every element from i on and to no earlier one |
| Loops.Wrap32 | tests/mlir/test_dsl_basic.py:250-272 | a 32-bit wrapped value lies in the `Int(32)` range |
| Loops.Wrap32Unique | tests/mlir/test_dsl_basic.py:250-272 | the `Int(32)` value congruent to x modulo 2^32 is its wrap |
| Loops.Wrap32Add | tests/mlir/test_dsl_basic.py:250-272 | wrapping after every addition gives what wrapping once at the end gives |
| Loops.TriangleFitsInt32 | tests/mlir/test_dsl_basic.py:250-272 | for the test's ten zero-initialised elements no sum wraps: element j ends as the exact sum, at most 45 |
| Loops.WhileFill | tests/mlir/test_dsl_basic.py:274-293 | the `while_` loop fills the first n elements with their index, leaves the rest, and ends with the counter at n |
| Loops.MutateIndexSum | tests/mlir/test_dsl_basic.py:656-677 | `mutate` with `z[i][j][k] = i + j + k` sets every element to the sum of its indices |
| Loops.MutateVisitsEachOnce | tests/mlir/test_dsl_basic.py:656-677 | `mutate` over (d0, d1, d2) calls its body d0*d1*d2 times, once per in-shape index tuple |
| Loops.FlatBefore | tests/mlir/test_dsl_basic.py:967-991 | the flat index `i*n1*n2 + j*n2 + k` grows with the visiting order |
| Loops.FlatWithin | tests/mlir/test_dsl_basic.py:967-991 | the flat index of an in-shape tuple is below the element count |
| Loops.MutateGather | tests/mlir/test_dsl_basic.py:967-991 | `B[i*n1*n2 + j*n2 + k] = A[i][j][x]` for every in-shape tuple, and B beyond the element count is unchanged |
| Loops.MutateFirstElement | tests/mlir/test_dsl_basic.py:1009-1025 | `mutate` whose body stores w into `z1[0][0][0]` leaves that element equal to w and every other element unchanged |
| Scope.PopFrom | tests/mlir/test_dsl_basic.py:95-121 | exiting a scope pops exactly the pending chains opened at or below its depth |
| Scope.PopFromKeepsShallower | tests/mlir/test_dsl_basic.py:95-121 | a pending frame survives the pop exactly when it is shallower |
| Scope.IfKeepsValid | tests/mlir/test_dsl_basic.py:58-76 | `if_` keeps the pending stack well formed, and every frame below the one it pushes is shallower than the current scope |
| Scope.ElifKeepsValid | tests/mlir/test_dsl_basic.py:144-165 | `elif_` keeps the pending stack well formed |
| Scope.ElseKeepsValid | tests/mlir/test_dsl_basic.py:77-94 | `else_` keeps the pending stack well formed |
| Scope.ExitKeepsValid | tests/mlir/test_dsl_basic.py:95-121 | leaving a scope keeps the stack well formed, and every pending chain is shallower than the exited scope |
| Scope.LoopKeepsValid | tests/mlir/test_dsl_basic.py:166-185 | entering a loop keeps the stack well formed and neither pushes nor closes a chain |
| Scope.BreakKeepsValid | tests/mlir/test_dsl_basic.py:303-327 | `break_` keeps the stack well formed and sets the error |
| Scope.ErrorSticks | tests/mlir/test_dsl_basic.py:303-379 | once the trace has failed, every further step leaves the state as it is |
| Scope.ChainRuns | tests/mlir/test_dsl_basic.py:122-165 | a chain runs at most one branch, and the else branch only when an else closed it |
| Scope.IfScopeTrace | tests/mlir/test_dsl_basic.py:95-121 | in `if_(a) { if_(b) } else_`, the inner chain is popped on exit, so the else closes the outer chain |
| Scope.IfElifElseTrace | tests/mlir/test_dsl_basic.py:122-143 | `if_ / elif_ / else_` builds one chain of two conditional branches closed by the else |
| Scope.ElseAfterLoopTrace | tests/mlir/test_dsl_basic.py:95-121 | an `else_` after a loop whose inner chain was popped has nothing to extend and fails the trace |
| Scope.BreakFails | tests/mlir/test_dsl_basic.py:303-379 | `break_` fails the trace: directly in a loop, inside an `if_` in a loop, and inside nested loops; the exits that follow keep the error |
| Scope.Tracer.constructor | tests/mlir/test_dsl_basic.py:95-121 | a fresh tracer holds the initial state |
| Scope.Tracer.If | tests/mlir/test_dsl_basic.py:58-76 | the state becomes OnIf of the old state; the new chain's id is returned |
| Scope.Tracer.Elif | tests/mlir/test_dsl_basic.py:144-165 | the state becomes OnElif of the old state |
| Scope.Tracer.Else | tests/mlir/test_dsl_basic.py:77-94 | the state becomes OnElse of the old state |
| Scope.Tracer.Loop | tests/mlir/test_dsl_basic.py:166-185 | the state becomes OnLoop of the old state |
| Scope.Tracer.Exit | tests/mlir/test_dsl_basic.py:95-121 | the state becomes OnExit of the old state |
| Scope.Tracer.Break | tests/mlir/test_dsl_basic.py:303-327 | the state becomes OnBreak of the old state |
| Scope.IfScopeRegression | tests/mlir/test_dsl_basic.py:95-121 | the regression kernel traced on a tracer ends with the outer chain closed and the inner one open |
| Scope.Select | tests/mlir/test_dsl_basic.py:122-165 | the branch that runs is the first whose condition holds, else the else branch if there is one, else none |
| Scope.CondChainScenario | tests/mlir/test_dsl_basic.py:122-165 | `if_(a > 5) / elif_(a > 3) / else_` picks branch 0, 1 or 2; without the else, no branch runs when neither holds |
| Scope.IfScopeOutcome | tests/mlir/test_dsl_basic.py:95-121 | with the else bound to the outer chain no branch of the regression kernel runs; bound to the inner chain, it would have |
| AxisMath.CeilDivBounds | tests/mlir/test_schedule_imperative.py:73-81 | the outer extent ceil(n/f) covers n and is the least number of blocks that does |
| AxisMath.OuterRange | tests/mlir/test_schedule_imperative.py:73-81 | outer index o is in range exactly when its block starts below n |
| AxisMath.InnerRange | tests/mlir/test_schedule_imperative.py:73-81 | inner index i is in range exactly when i < f and o*f + i < n: the clipped bound drops and adds no index |
| AxisMath.SplitTenByThree | tests/mlir/test_schedule_imperative.py:73-81 | splitting 10 by 3 gives outer `0 to 4`, inner bound 3 at o = 0 and 1 at o = 3 |
| AxisMath.SplitCovers | tests/mlir/test_schedule_imperative.py:73-81 | the split nest visits 0, 1, ..., n-1, in order, each once |
| AxisMath.FuseIsNest | tests/mlir/test_schedule_imperative.py:65-71 | the fused loop recovers exactly the pairs of the original nest, in order |
| AxisMath.FuseThenSplit | tests/mlir/test_schedule_imperative.py:65-71 | the fused index o*lb + i recovers o and i |
| AxisMath.FuseTenTwenty | tests/mlir/test_schedule_imperative.py:65-71 | fusing 10 and 20 gives one loop `0 to 200` |
| AxisMath.SwapPermutes | tests/mlir/test_schedule_imperative.py:56-63 | swapping two loops visits the same pairs, each once |
| AxisMath.SplitSwapCovers | tests/mlir/test_schedule_imperative.py:20-33 | after split and `reorder(i, o)`, the guarded nest visits each original index below n exactly once |
| AxisMath.PairInNest | tests/mlir/test_schedule_imperative.py:20-33 | every original index has its (inner, outer) pair in the reordered nest |
| Schedule.IndexOf | tests/mlir/test_schedule_imperative.py:9-10 | the first position of a name, or None exactly when it is absent |
| Schedule.IndexOfDistinct | tests/mlir/test_schedule_imperative.py:19-20 | with distinct names, looking up the k-th name gives k |
| Schedule.NestStage | tests/mlir/test_schedule_imperative.py:9-10 | a tagged loop nest becomes a stage with one unannotated axis per loop, in nesting order |
| Schedule.FindStage | tests/mlir/test_schedule_imperative.py:19-20 | a stage is found exactly when its name is declared, and it carries that name |
| Schedule.Picked | tests/mlir/test_schedule_imperative.py:56-63 | the axes a reorder names, in the order given |
| Schedule.FirstRepeat | tests/mlir/test_schedule_imperative.py:56-63 | None exactly when the reorder's names are distinct |
| Schedule.FirstUnknown | tests/mlir/test_schedule_imperative.py:56-63 | None exactly when every named axis exists; otherwise a name that does not |
| Schedule.WithStageValid | tests/mlir/test_schedule_imperative.py:49-81 | replacing a stage by a valid one of the same name keeps the schedule valid |
| ScheduleLaws.SplitLaws | tests/mlir/test_schedule_imperative.py:73-81 | a successful split keeps the schedule valid, changes only the one stage, replaces axis p by outer `Extent(ceil(n/f))` and inner `Clipped(f, n, outer)`, moves deeper stores one level down, and the split nest visits 0..n-1 |
| ScheduleLaws.SplitErrors | tests/mlir/test_schedule_imperative.py:73-81 | split fails on an unknown stage or axis and on a stage tied by a compute_at, and on a known axis of a free stage exactly for factor 0, a non-rectangular axis or a name clash |
| ScheduleLaws.FuseLaws | tests/mlir/test_schedule_imperative.py:65-71 | a successful fuse keeps the schedule valid, replaces two adjacent rectangular axes by one of extent la*lb that recovers the original pairs, and moves deeper stores one level up |
| ScheduleLaws.FuseNeedsAdjacent | tests/mlir/test_schedule_imperative.py:65-71 | fusing axes that are not adjacent in that order is refused (with `Attached` on a stage tied by a compute_at, `NotAdjacent` otherwise) |
| ScheduleLaws.FillMultiset | tests/mlir/test_schedule_imperative.py:56-63 | filling the named positions exchanges the named axes for the queued ones |
| ScheduleLaws.FillOrder | tests/mlir/test_schedule_imperative.py:56-63 | the named positions receive the queue in order |
| ScheduleLaws.FillKeeps | tests/mlir/test_schedule_imperative.py:56-63 | unnamed positions keep their axes |
| ScheduleLaws.ReorderAxes | tests/mlir/test_schedule_imperative.py:56-63 | the reordered axis list is a permutation of the old one with distinct names |
| ScheduleLaws.ReorderLaws | tests/mlir/test_schedule_imperative.py:56-63 | a successful reorder keeps the schedule valid, permutes the axes (same multiset), puts the named axes in the given order, and leaves the other axes and the body in place |
| ScheduleLaws.ReorderVisits | tests/mlir/test_schedule_imperative.py:56-63 | the swapped nest visits each pair of the original nest exactly as often |
| ScheduleLaws.UnrollLaws | tests/mlir/test_schedule_imperative.py:49-54 | unroll changes only the annotation of the one axis; names, bounds and everything else are unchanged |
| ScheduleLaws.ComputeAtLaws | tests/mlir/test_schedule_imperative.py:103-111 | compute_at succeeds exactly for distinct stages, neither relocated nor the producer a target, whose loops agree in range down to the target axis; it records (consumer, k), changes no stage, keeps the schedule valid and ties both stages; relocating twice is an error |
| ScheduleLaws.AttachedRefused | tests/mlir/test_schedule_imperative.py:103-111 | on a stage tied by a compute_at, split, fuse and reorder are refused with `Attached`; unroll succeeds exactly when the axis exists |
| ScheduleLaws.ClippedPairCovers | tests/mlir/test_schedule_imperative.py:20-33 | a split's inner axis moved outside its outer axis, with the guard, visits each index exactly as often as the unsplit loop `0 .. n-1` |
| ScheduleLaws.SplitKeepsValid | tests/mlir/test_schedule_imperative.py:73-81 | split maps valid schedules to valid schedules |
| ScheduleLaws.FuseKeepsValid | tests/mlir/test_schedule_imperative.py:65-71 | fuse maps valid schedules to valid schedules |
| ScheduleLaws.ReorderKeepsValid | tests/mlir/test_schedule_imperative.py:56-63 | reorder maps valid schedules to valid schedules |
| ScheduleLaws.UnrollKeepsValid | tests/mlir/test_schedule_imperative.py:49-54 | unroll maps valid schedules to valid schedules |
| ScheduleLaws.ComputeAtKeepsValid | tests/mlir/test_schedule_imperative.py:103-111 | compute_at maps valid schedules to valid schedules |
| Lowering.StoresAtMember | tests/mlir/test_schedule_imperative.py:58-63 | a store is emitted at a level exactly when it was written there |
| Lowering.NestWithin | tests/mlir/test_schedule_imperative.py:58-63 | walking l loops into a nest reaches the statements of depth l |
| Lowering.NestLoops | tests/mlir/test_schedule_imperative.py:58-63 | inside l loops: the spliced producers, then the stores of depth l, then the loop over axis l |
| Lowering.LowerFromMembers | tests/mlir/test_schedule_imperative.py:103-111 | a stage gets a nest exactly when it is not relocated |
| Lowering.LowerEmitsEachOnce | tests/mlir/test_schedule_imperative.py:103-111 | lowering emits one nest per unrelocated stage, none twice |
| Lowering.RelocatedStoreDepth | tests/mlir/test_schedule_imperative.py:103-111 | a producer store written at level l is emitted, renamed to the consumer's index variables, inside the first max(l, d) - d loops of the producer's part at depth d |
| Lowering.RenameAligned | tests/mlir/test_schedule_imperative.py:107-111 | among the first d loops, the producer's j-th index variable becomes the consumer's j-th |
| Lowering.GatherHas | tests/mlir/test_schedule_imperative.py:103-111 | what a producer contributes at depth d is spliced at depth d of its consumer |
| Lowering.ComputeAtPlacement | tests/mlir/test_schedule_imperative.py:103-111 | after `compute_at(P, C, axis k)`, P has no nest of its own, C has one, and all of P's part is emitted inside C's first k+1 loops; each of those loops has the same range in P as in C and P's index variable j is renamed to C's j-th |
| Lowering.ComputeAtStore | tests/mlir/test_schedule_imperative.py:103-111 | a store P writes at level l lands, with C's index variables, ahead of P's remaining loops when l <= k+1 and at its own depth inside them otherwise |
| Scheduling.Scheduler.constructor | tests/mlir/test_schedule_imperative.py:50-51 | `create_schedule` holds the traced stages and no relocation |
| Scheduling.Scheduler.Split | tests/mlir/test_schedule_imperative.py:73-81 | the state becomes the split schedule, or stays as it was with the error returned; validity is kept |
| Scheduling.Scheduler.Fuse | tests/mlir/test_schedule_imperative.py:65-71 | the state becomes the fused schedule, or stays as it was with the error returned; validity is kept |
| Scheduling.Scheduler.Reorder | tests/mlir/test_schedule_imperative.py:56-63 | the state becomes the reordered schedule, or stays as it was with the error returned; validity is kept |
| Scheduling.Scheduler.Unroll | tests/mlir/test_schedule_imperative.py:49-54 | the state becomes the annotated schedule, or stays as it was with the error returned; validity is kept |
| Scheduling.Scheduler.ComputeAt | tests/mlir/test_schedule_imperative.py:103-111 | the state records the relocation, or stays as it was with the error returned; validity is kept |
| Scheduling.Scheduler.Lower | tests/mlir/test_schedule_imperative.py:103-111 | the lowered nests, one per stage that is not relocated |
| Scheduling.TaggedStage | tests/mlir/test_schedule_imperative.py:39-51 | the loop tagged "C" is stage C with axes x (10), y (20), i (32), retrievable by name |
| Scheduling.UnrollScenario | tests/mlir/test_schedule_imperative.py:49-54 | `unroll(C.axis[0], 3)` annotates x with 3 and changes nothing else |
| Scheduling.ReorderScenario | tests/mlir/test_schedule_imperative.py:56-63 | `reorder(C.axis[1], C.axis[0])` gives y (0 to 20) around x (0 to 10) |
| Scheduling.FuseScenario | tests/mlir/test_schedule_imperative.py:65-71 | `fuse(C.axis[0], C.axis[1])` gives one loop 0 to 200 around i |
| Scheduling.SplitScenario | tests/mlir/test_schedule_imperative.py:73-81 | `split(C.axis[0], 3)` gives x.outer 0 to 4, x.inner bounded by min(3, 10 - 3 * x.outer), then y 0 to 20 |
| Scheduling.IfSplitScenario | tests/mlir/test_schedule_imperative.py:20-20 | in `test_if`, the split gives x.outer 0 to 4 around x.inner |
| Scheduling.IfReorderScenario | tests/mlir/test_schedule_imperative.py:21-21 | `reorder(i, o)` then puts x.inner outside x.outer |
| Scheduling.IfReorderCovers | tests/mlir/test_schedule_imperative.py:20-33 | in the stage the split and `reorder(i, o)` produce, x.inner and x.outer visit each x of the unscheduled loop `0 to 10` exactly as often as that loop does (once), and y is the unscheduled y |
| Scheduling.ReorderAfterComputeAt | tests/mlir/test_schedule_imperative.py:103-111 | once C is computed at y of Out, reordering or fusing Out's loops and splitting C's are refused with `Attached` |
| Scheduling.ComputeAtScenario | tests/mlir/test_schedule_imperative.py:103-106 | `s[C].compute_at(s[Out], Out.axis[1])` records C under y, loop 1 of Out |
| Scheduling.ComputeAtLowersOut | tests/mlir/test_schedule_imperative.py:107-108 | after it, lowering emits only Out's nest |
| Scheduling.ComputeAtInsideY | tests/mlir/test_schedule_imperative.py:107-111 | inside y of Out comes first C's store indexed by Out's x and y, then `B[x, y] = 0`, then the loop over i 0 to 32 |
| Scheduling.ComputeAtThroughScheduler | tests/mlir/test_schedule_imperative.py:103-111 | the same sequence run on the schedule object succeeds and lowers to Out's nest alone |
| Decimal.ParseNatToString | python/heterocl/utils.py:40-42 | `str(n)` reads back as n |
| Decimal.NatToStringInjective | python/heterocl/utils.py:40-42 | different widths print differently |
| TypeMapping.HclDtypeToMlir | python/heterocl/utils.py:9-34 | an MLIR type is returned unchanged; anything that is neither an MLIR nor a DSL type raises "Not supported type" |
| TypeMapping.Collect | python/heterocl/utils.py:30-32 | the struct's element types are the fields' converted types, in order, exactly when every field converts to a type |
| TypeMapping.ConvertScalar | python/heterocl/utils.py:12-22 | Int, UInt, Fixed and UFixed convert to a type of the same width (and fraction); the result is unsigned, with hint "u", exactly for UInt without `signless` |
| TypeMapping.ConvertFloat | python/heterocl/utils.py:23-29 | a float converts exactly when its width is 16, 32 or 64, to the type named "float" and that width; otherwise no type |
| TypeMapping.ConvertStruct | python/heterocl/utils.py:30-32 | a struct converts to the struct of its fields' types in declaration order, each converted without `signless`, so the flag given for the struct has no effect |
| TypeMapping.DtypeStrRoundTrip | python/heterocl/utils.py:37-62 | every name `get_mlir_dtype_str` gives reads back as the type it named, signless integers and index read as signed |
| TypeMapping.DtypeStrInjective | python/heterocl/utils.py:37-62 | two types with the same name are the same type up to that identification |
| TypeMapping.GetDtypeStr | python/heterocl/utils.py:65-73 | an MLIR type is named by `get_mlir_dtype_str`, a string passes through, a DSL type is named by `dtype_to_str`, anything neither a type nor a string raises "Type error" |
| TypeMapping.DefaultDtypeStr | python/heterocl/utils.py:70-73 | `get_dtype_str(None)` names the default type, whether it is a string or a DSL type |
| TypeMapping.DtypeStrBothRoutes | python/heterocl/utils.py:65-73 | a scalar DSL type and the MLIR type it converts to get the same string, given the DSL's naming of its types |
| TypeMapping.ExtraTypeHints | python/heterocl/utils.py:76-88 | raises exactly for a non-MLIR argument; otherwise the hint is one of "u", "s", "_" |
| TypeMapping.HintAgreesWithStr | python/heterocl/utils.py:76-88 | the hint is "u" exactly for types whose name starts with "uint", and "s" only for types whose name starts with "int" |
| TypeMapping.Underscore | python/heterocl/utils.py:58-60 | the first underscore of a fixed-point name, or None when there is none |
| TypeMapping.Examples | python/heterocl/utils.py:9-88 | UInt(8) is unsigned, or signless with the flag; Float(8) gives no type; a string is refused; signless int32 prints "int32"; ufixed(12, 4) prints "ufixed12_4"; index has hint "_" |

## Left out

- Building and running kernels is not modelled: `hcl.build`, `hcl.asarray`, `asnumpy`, the numpy comparisons and random inputs. The kernels are modelled directly as Dafny methods over arrays.
- Printed MLIR text and `get_affine_loop_nests` are not modelled. Bounds and annotations are compared structurally instead: "0 to 4" is an axis `Extent(4)`, and "unroll = 3" is `unroll == Some(3)`.
- Floating-point arithmetic is not modelled. In `test_if` of the schedule tests, `abs` over float32 is represented only by the stores it makes. `test_tensor_index_expr` copies values without arithmetic and is modelled over `int`.
- `and_` and `or_` in `select` (`tests/mlir/test_dsl_basic.py:7-56`) are not modelled. `or_` raising `MLIRLimitationError` is a backend limitation.
- `test_invalidate` (`tests/mlir/test_dsl_basic.py:295-301`) is not modelled: it only checks that a schedule can be created around a `while_` on a scalar.
- `test_unused_struct_tensor` is not modelled: it checks only that an unused struct scalar does not disturb a zero tensor. Nor is the tensor indexing `z1[xy.y][xy.x] == 3` of `test_tensor_slice_struct`, which follows from x == 2 and y == 1.
- `Loops.MutateFirstElement`: the stored value is the bit width of the slice's element type, a parameter here. The 32 of the test is not derived from `Int(32)`.
- Loop bodies whose bounds depend on an outer index are covered only by `Loops.ForTriangle` (`j` from `i` to n). The index cast itself (`for_index_casting`) has no separate meaning in the model.
- `Loops.ForStoreIndex`, `Loops.WhileFill` and `Loops.MutateIndexSum` store loop indices and their sums as unbounded integers. Only `Loops.ForTriangle`, whose sums grow quadratically, wraps its stores to `Int(32)`; the other kernels' stores fit 32 bits for any array the tests allocate.
- A `for_` step of 0 is not modelled; `Loops.Range` requires a nonzero step.
- `Schedule.Split`: splitting or fusing an axis that is already clipped is refused with `NotRectangular`. The tests never do this, and the scheduler's own behaviour for it is not visible.
- `Schedule.Reorder`: a reorder that would move a loop across a store written between the reordered loops is refused with `ImperfectNest`. This is a modelling choice for imperfect nests; the tests reorder only perfectly nested loops.
- `Schedule.ComputeAt`: chains and cycles of relocations are refused with `BadTarget`, and mismatched outer extents with `ExtentMismatch`. The scheduler's own checks are not visible.
- `Schedule.Split`, `Schedule.Fuse`, `Schedule.Reorder`: a stage taking part in a `compute_at` is refused with `Attached`. The tests never reschedule a relocated stage, and how the scheduler re-targets a relocation after its loops change is not visible.
- `Lowering.ComputeAtPlacement`: stores have no execution semantics in the model. That the relocated producer computes the same values as the unrelocated schedule is not proved; placement, renaming and equal loop ranges are.
- `Lowering.Lower`: the order of statements after a nested loop is not modelled. Stores of one depth are emitted before the loop to the next depth. The recovery of the original indices of a fused or split loop is stated by the `AxisMath` laws, not rendered into the nest.
- `AxisMath.SplitSwapCovers`: when x.inner is moved outside x.outer, the clipped bound `min(3, 10 - 3 * x.outer)` is modelled as a guard on the combined index. How the generated code expresses that bound is not modelled.
- The tracer and scheduler classes (`hcl.for_`, `hcl.if_`, `create_schedule`, `Stage`) are not part of this model. Their behaviour is modelled from what the two test files assert.
- Calls into `hcl_mlir` and `hcl_d` (`IntegerType.get_*`, `F32Type.get`, `is_signed_type` and the other predicates) become constructors and fields of `TypeMapping.MlirType`.
- `TypeMapping.ConvertDType`: a struct field whose conversion gives no type (a float of width 8, say) is reported as `FieldWithoutType`. The foreign `StructType.get` would receive `None` for it, and what it then does is not visible.
- `TypeMapping.GetDtypeStr`: `dtype_to_str` of `heterocl/types.py` and the global default `init_dtype` are parameters. `types.py` and `config.py` are not part of this model. A `Type` subclass other than the six modelled ones is not represented.
- Float kinds other than f16, f32, f64, f80 and f128 are one variant, `OtherFloat`, for which `get_mlir_dtype_str` raises.
