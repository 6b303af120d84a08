# mypy / mypyc core, modelled in Dafny

This project models the parts of mypy (a static type checker for Python) and
mypyc (its compiler from typed Python to C extension modules) that decide
values, layouts and orders. It then proves properties of those models. The
parts are:

- **Tagged integers** (`cpy_tagged.dfy`, `cpy_runtime.dfy`; `mypyc/lib-rt/CPy.h`).
  A `CPyTagged` is a 64-bit word. It holds either a *short* integer shifted
  left by one, with tag bit 0, or a pointer to a Python `int` object with the
  tag bit set. The model states each inline fast path of the header on words
  modulo 2^64. It proves that the fast path is taken exactly when the result
  fits a short integer and that the result then is Python's result: floor
  division, floor modulo, arithmetic shifts rounding down, sign rules of the
  bitwise operators, and overflow tests that are exact. The reference counts
  that tagging and untagging touch are a `Heap` class. The backwards search
  through a vtable's trait section is a method over an `array`.
- **IR builder** (`ir.dfy`, `ir_exec.dfy`, `ll_arith.dfy`, `ll_args.dfy`,
  `ll_builder.dfy`; `mypyc/irbuild/ll_builder.py`). The `LowLevelIRBuilder`
  is a class. It holds the blocks being built, the error-handler stack and
  the values kept alive. Each operation states the op sequence it appends.
  An executable semantics of those ops (`ir_exec.dfy`) proves that the
  inlined fixed-width division and modulo compute Python's `//` and `%`.
  The union decomposition is proved to lay out one type test and branch per
  item that needs one, in item order. The bitmap and positional counting of
  native calls are proved against their definitions.
- **Function IR** (`func_ir.dfy`; `mypyc/ir/func_ir.py`): signatures, the
  bitmap arguments that mark which fixed-width arguments were passed,
  serialization of arguments, and how a function's values are enumerated.
- **Symbol tables and names** (`nodes.dfy`; `mypy/nodes.py`): argument kinds,
  the checks on the order and names of arguments, flags, qualified names,
  a class's type variables, and the local definitions a symbol table yields.
- **Build state** (`mypy_build.dfy`; `mypy/build.py`): import priorities,
  resolving relative imports, a module's ancestors, adding and suppressing
  dependencies, computing a module's dependencies and their priorities, the
  filter on dependencies, per-build statistics, cache file names, and the
  order of the modules a file imports.
- **C module emission** (`emitmodule.dfy`; `mypyc/codegen/emitmodule.py`):
  the topological order of modules and of C declarations, declaring
  globals, rewriting a name into a pointer, the group directory and IR
  cache names, the fastcall test, and the plugin's map from modules to
  groups and the extra dependencies it reports.
- **Build driver** (`mypyc_build.dfy`; `mypyc/build.py`): which sources are
  compiled, whether a shared library is used, building and naming the
  compilation groups, and the mapping of optimisation and debug levels to
  MSVC flags.
- **Call checking** (`checkexpr.dfy`, `tuple_types.dfy`; `mypy/checkexpr.py`):
  the minimum length of a tuple type and the type of an index into it,
  integer literals in an index, duplicate mappings of actuals to one
  formal, the order of plausible overload targets, de-duplication of union
  results, and merging the argument kinds of several signatures.
- **Type meets** (`meet.dfy`, `tuple_types.dfy`; `mypy/meet.py`): the
  possible variants of a type, TypedDict overlap, expanding a variadic tuple
  to a fixed length, the meet of two tuple types, and folding the meet over a
  list of types.

`wrappers.dfy` (`Option` and its `GetOr`), `seqs.dfy` (sequence lemmas) and
`strings.dfy` (string operations Python provides, such as `split`, `join`,
`startswith`) are shared helpers. `strings.dfy` also states those operations'
own properties.

## Model

| member | source | states |
|---|---|---|
| TaggedInt.CheckLongIsTagBit | mypyc/lib-rt/CPy.h:163-169 | `CheckLong` (the low bit is 1) is exactly `x & CPY_INT_TAG != 0`, and `CheckShort` is its negation |
| TaggedInt.ShortRoundTrip | mypyc/lib-rt/CPy.h:189-192 | every value in the short range encodes to a short word that decodes (`>> 1`) back to the value |
| TaggedInt.ShortDecode | mypyc/lib-rt/CPy.h:189-192 | every short word decodes to an in-range value whose encoding is the word itself, and its signed reading is twice the value |
| TaggedInt.CompareShorts | mypyc/lib-rt/CPy.h:273-319 | two short words are equal, and order as signed words, exactly as the integers they stand for |
| TaggedInt.TooBigIsOutOfRange | mypyc/lib-rt/CPy.h:234-238 | the unsigned-compare trick of `CPyTagged_TooBig` holds exactly for values outside `[CPY_TAGGED_MIN, CPY_TAGGED_MAX]` |
| TaggedInt.AddOverflowExact | mypyc/lib-rt/CPy.h:246-249 | the xor test on the wrapped sum flags exactly the sums that leave the signed 64-bit range |
| TaggedInt.SubtractOverflowExact | mypyc/lib-rt/CPy.h:251-254 | the xor test on the wrapped difference flags exactly the differences that leave the signed 64-bit range |
| TaggedInt.FloorDivMod | mypyc/lib-rt/CPy.h:464-490 | Python's `//` and `%` satisfy `a == b * (a // b) + a % b`, with the remainder zero or of the divisor's sign |
| TaggedInt.CDivBound | mypyc/lib-rt/CPy.h:464-478 | C's truncating quotient, and the product with the divisor, are no larger in magnitude than the dividend |
| TaggedInt.FloorDivFromCDiv | mypyc/lib-rt/CPy.h:464-478 | Python's floor quotient is C's truncating quotient, minus one exactly when the signs differ and the division is inexact |
| TaggedInt.FloorModFromCRem | mypyc/lib-rt/CPy.h:480-490 | Python's modulus is C's remainder, plus the divisor exactly when the signs differ and the remainder is nonzero |
| TaggedInt.CDivScale | mypyc/lib-rt/CPy.h:464-478 | dividing the two tagged (doubled) operands gives the same truncating quotient as dividing the values |
| TaggedInt.Add | mypyc/lib-rt/CPy.h:432-441 | the in-place path is taken exactly for two shorts whose sum fits, and then yields a short standing for the sum |
| TaggedInt.AddFast | mypyc/lib-rt/CPy.h:432-441 | for two shorts, the overflow test fails exactly when the sum fits, and the wrapped word sum is then the short encoding of the sum |
| TaggedInt.Subtract | mypyc/lib-rt/CPy.h:443-452 | the in-place path is taken exactly for two shorts whose difference fits, and yields the difference |
| TaggedInt.SubtractFast | mypyc/lib-rt/CPy.h:443-452 | for two shorts, the overflow test fails exactly when the difference fits, and the wrapped word difference is then its short encoding |
| TaggedInt.Multiply | mypyc/lib-rt/CPy.h:454-462 | the in-place path is taken exactly for two non-negative shorts below 2^30, and yields their product |
| TaggedInt.MultiplyFast | mypyc/lib-rt/CPy.h:256-259 | `CPyTagged_IsMultiplyOverflow` is false exactly for non-negative operands below 2^30, and the word product is then the short encoding of the product |
| TaggedInt.MultiplyFits | mypyc/lib-rt/CPy.h:256-259 | the product of two operands below 2^30 stays below 2^60, so it always fits |
| TaggedInt.Negate | mypyc/lib-rt/CPy.h:422-430 | every short except the most negative one negates in place, to a short standing for the negated value |
| TaggedInt.NegateFast | mypyc/lib-rt/CPy.h:422-430 | the excluded word is exactly the encoding of `CPY_TAGGED_MIN`, and the wrapped negation of any other short encodes the negated value |
| TaggedInt.FloorDivide | mypyc/lib-rt/CPy.h:464-478 | the in-place path is taken exactly for two shorts with a nonzero divisor and a dividend other than `CPY_TAGGED_MIN`, and yields Python's floor quotient |
| TaggedInt.FloorDivideFast | mypyc/lib-rt/CPy.h:261-263 | `CPyTagged_MaybeFloorDivideFault` is false on shorts exactly when the divisor is nonzero and the dividend is not the most negative short; the in-place result is then Python's floor quotient |
| TaggedInt.FloorDivideRounding | mypyc/lib-rt/CPy.h:464-478 | the header's truncate-then-decrement step yields exactly Python's floor quotient, which fits a short |
| TaggedInt.ExactnessTest | mypyc/lib-rt/CPy.h:470-474 | the test `result * right != left` on tagged words is exactly the test that the truncating quotient is inexact |
| TaggedInt.Remainder | mypyc/lib-rt/CPy.h:480-490 | the in-place path is taken exactly for two shorts with a nonzero divisor, and yields Python's `%` |
| TaggedInt.RemainderCorrection | mypyc/lib-rt/CPy.h:480-490 | C's remainder of the tagged words, corrected by the tagged divisor when the signs differ and it is nonzero, is the short encoding of Python's `%` |
| TaggedInt.TaggedRemainder | mypyc/lib-rt/CPy.h:265-271 | C's remainder of the doubled operands is twice the remainder of the values, so it can be taken on tagged words |
| TaggedInt.Invert | mypyc/lib-rt/CPy.h:493-498 | the in-place path is taken for every short except the value 2^61, and yields `-n - 1` |
| TaggedInt.InvertFast | mypyc/lib-rt/CPy.h:493-498 | the guard word `CPY_TAGGED_ABS_MIN` is the short for 2^61, and `~num & ~CPY_INT_TAG` encodes `-n - 1` for every short |
| TaggedInt.PyBitwiseExamples | mypyc/lib-rt/CPy.h:501-522 | the reference for Python's bitwise and, or and xor (`&`, the bar operator and `^`) on unbounded integers (infinite two's complement) gives `6 & 3 == 2`, `-4` or-ed with `1` is `-3` and `-1 ^ 5 == -6` |
| TaggedInt.PyBitwiseSign | mypyc/lib-rt/CPy.h:501-522 | Python's `a op b` is negative exactly when `op` holds of the operands' signs |
| TaggedInt.WordOpSigned | mypyc/lib-rt/CPy.h:501-522 | on `n`-bit words read as two's complement, bitwise and, or and xor give exactly Python's bitwise and, or and xor (`&`, the bar operator and `^`) of the signed readings |
| TaggedInt.WordBitwiseSigned | mypyc/lib-rt/CPy.h:501-522 | the same on 64-bit C words: `(Py_ssize_t)(a op b)` is Python's `a op b` of the signed operands |
| TaggedInt.ShortBitwise | mypyc/lib-rt/CPy.h:501-522 | `left op right` of two short words is a short whose value is Python's `Value(left) op Value(right)` |
| TaggedInt.BitwiseAnd | mypyc/lib-rt/CPy.h:501-506 | the in-place path is taken exactly for two shorts, and yields a short whose value is Python's `Value(left) & Value(right)`, negative exactly when both operands are |
| TaggedInt.BitwiseOr | mypyc/lib-rt/CPy.h:509-514 | the in-place path is taken exactly for two shorts, and yields a short whose value is Python's bitwise or of the two values, negative exactly when either operand is |
| TaggedInt.BitwiseXor | mypyc/lib-rt/CPy.h:517-522 | the in-place path is taken exactly for two shorts, and yields a short whose value is Python's `Value(left) ^ Value(right)`, negative exactly when the signs differ |
| TaggedInt.BitwiseShort | mypyc/lib-rt/CPy.h:501-522 | and, or and xor of two short words are shorts whose values are Python's bitwise and, or and xor (`&`, the bar operator and `^`) of the operands' values, with Python's sign rules |
| TaggedInt.SignBits | mypyc/lib-rt/CPy.h:501-522 | on 64-bit words, the sign of `a op b` is `op` applied to the signs of `a` and `b` |
| TaggedInt.Rshift | mypyc/lib-rt/CPy.h:525-540 | the in-place path is taken exactly for a short shifted by a non-negative short count, and yields the floor of the value divided by 2^count |
| TaggedInt.RshiftFast | mypyc/lib-rt/CPy.h:525-540 | counts of 64 or more give 0 or -1 by the sign, and smaller counts shift the tagged word and clear the tag, both equal to Python's `>>` |
| TaggedInt.RshiftAll | mypyc/lib-rt/CPy.h:530-535 | shifting a short value by 64 or more leaves only its sign, 0 or -1 |
| TaggedInt.RshiftSome | mypyc/lib-rt/CPy.h:537 | for a count below 64, shifting the tagged word and clearing the tag encodes the value shifted by the count |
| TaggedInt.Lshift | mypyc/lib-rt/CPy.h:547-558 | the in-place path is taken exactly for a short shifted by a count below 64 whose result still fits, and yields `value * 2^count` |
| TaggedInt.LshiftFast | mypyc/lib-rt/CPy.h:542-544 | `IsShortLshiftOverflow` is false exactly when the shifted value fits a short, and the wrapped shifted word then encodes it |
| TaggedInt.LshiftOverflow | mypyc/lib-rt/CPy.h:542-544 | a shifted value that left the signed 64-bit range never shifts back to its operand, so the test catches it |
| TaggedInt.IsEq | mypyc/lib-rt/CPy.h:273-279 | decided in place exactly when the left operand is short, and then true exactly when the right one is short with the same value |
| TaggedInt.IsNe | mypyc/lib-rt/CPy.h:281-287 | decided in place exactly when the left operand is short, and then the negation of `IsEq` |
| TaggedInt.IsLt | mypyc/lib-rt/CPy.h:289-295 | decided in place exactly when both operands are short, and then true exactly when the left value is smaller |
| TaggedInt.IsGe | mypyc/lib-rt/CPy.h:297-303 | decided in place exactly for two shorts, and then `left >= right` on the values |
| TaggedInt.IsGt | mypyc/lib-rt/CPy.h:305-311 | decided in place exactly for two shorts, and then `left > right` on the values |
| TaggedInt.IsLe | mypyc/lib-rt/CPy.h:313-319 | decided in place exactly for two shorts, and then `left <= right` on the values |
| CpyRuntime.TagRoundTrip | mypyc/lib-rt/CPy.h:194-197 | tagging an aligned object address gives a long word whose `CPyTagged_LongAsObject` is that address |
| CpyRuntime.Heap.TaggedIncRef | mypyc/lib-rt/CPy.h:171-175 | a short changes no reference count; a long adds one to its object's count and changes nothing else |
| CpyRuntime.Heap.TaggedDecRef | mypyc/lib-rt/CPy.h:177-181 | a short changes no reference count; a long removes one from its object's count and changes nothing else |
| CpyRuntime.Heap.TaggedXDecRef | mypyc/lib-rt/CPy.h:183-187 | as `TaggedDecRef`, but a long holding the null pointer changes nothing |
| CpyRuntime.Heap.FromObject | mypyc/lib-rt/CPy.h:199-209 | the result is short exactly when the value fits, encoding it without touching counts; otherwise it is the tagged object, with one new reference |
| CpyRuntime.Heap.StealFromObject | mypyc/lib-rt/CPy.h:211-221 | a fitting value becomes a short and the stolen reference is released; otherwise the tagged object keeps the reference |
| CpyRuntime.Heap.BorrowFromObject | mypyc/lib-rt/CPy.h:223-232 | a fitting value becomes a short, otherwise the tagged object, and no reference count changes |
| CpyRuntime.TraitSlot | mypyc/lib-rt/CPy.h:75-83 | when the trait section names the trait, the first group found scanning backwards from the vtable start lies in the section and names it |
| CpyRuntime.FindTraitGroup | mypyc/lib-rt/CPy.h:75-83 | the backwards scan in strides of three stops at exactly the group `TraitSlot` names |
| CpyRuntime.FindTraitVtable | mypyc/lib-rt/CPy.h:75-83 | returns the sub-vtable stored right after the first group naming the trait |
| CpyRuntime.FindAttrOffset | mypyc/lib-rt/CPy.h:85-93 | returns entry `index` of the offset table stored two slots after the first group naming the trait |
| LlBuilder.AppendOpEffect | mypyc/irbuild/ll_builder.py:265-269 | appending an op to the current block adds exactly that op to the function's op stream; earlier blocks, the block's identity and its handler are unchanged; the block becomes terminated exactly when the op is a control op |
| LlBuilder.AppendOpWellFormed | mypyc/irbuild/ll_builder.py:265-269 | adding an op keeps every block except the current one terminated |
| LlBuilder.WellFormedActivate | mypyc/irbuild/ll_builder.py:276-282 | appending a block after a terminated one keeps every earlier block terminated |
| LlBuilder.LowLevelIRBuilder.constructor | mypyc/irbuild/ll_builder.py:247-256 | a new builder has no blocks, an error-handler stack holding only `None`, and nothing to keep alive |
| LlBuilder.LowLevelIRBuilder.Add | mypyc/irbuild/ll_builder.py:265-269 | requires an unterminated current block; the op goes at its end, its value is returned, nothing else changes, and the block stays open exactly when the op is not a control op |
| LlBuilder.LowLevelIRBuilder.Goto | mypyc/irbuild/ll_builder.py:271-274 | a jump is appended only when the current block is open; afterwards the current block is terminated either way |
| LlBuilder.LowLevelIRBuilder.ActivateBlock | mypyc/irbuild/ll_builder.py:276-282 | requires the previous block to be terminated; appends the new empty block with the handler on top of the stack and makes it current, adding no op |
| LlBuilder.LowLevelIRBuilder.GotoAndActivate | mypyc/irbuild/ll_builder.py:284-287 | a jump to the block when the current one was open, then that block, empty and carrying the top handler, becomes current |
| LlBuilder.LowLevelIRBuilder.KeepAlive | mypyc/irbuild/ll_builder.py:289-290 | appends one `KeepAlive` op holding the values and the steal flag |
| LlBuilder.LowLevelIRBuilder.PushErrorHandler | mypyc/irbuild/ll_builder.py:295-296 | the handler is pushed on the error-handler stack and nothing else changes |
| LlBuilder.LowLevelIRBuilder.PopErrorHandler | mypyc/irbuild/ll_builder.py:298-299 | on a nonempty stack, removes and returns the top handler, so pushing it back restores the stack |
| LlBuilder.LowLevelIRBuilder.FlushKeepAlives | mypyc/irbuild/ll_builder.py:308-311 | with values pending, one `KeepAlive` of exactly those values is appended; with none, no op is; the pending list is empty afterwards |
| LlBuilder.LowLevelIRBuilder.UnboxOrCast | mypyc/irbuild/ll_builder.py:328-336 | an unboxed target gets an `Unbox`; any other gets a `Cast` that borrows when asked, and then the source is queued to be kept alive |
| LlBuilder.BorrowedReadsAreNative | mypyc/irbuild/ll_builder.py:614-631 | a borrowed attribute read is always a native `GetAttr` with the borrow flag; no read is borrowed unless asked; the generic lookup is used exactly when the class is not a native class declaring the attribute |
| LlBuilder.LowLevelIRBuilder.GetAttr | mypyc/irbuild/ll_builder.py:614-631 | a non-union type gets one op, native or generic, and the object is kept alive exactly when the native read is borrowed; a union gets the dispatch of `DecomposeUnionHelper` reading the attribute in each branch |
| LlBuilder.PartitionSizes | mypyc/irbuild/ll_builder.py:2362-2368 | the native-class alternatives and the rest together account for every alternative of the union |
| LlBuilder.PartitionItems | mypyc/irbuild/ll_builder.py:2362-2368 | the rest hold no native class, and are empty exactly when every alternative is a native class |
| LlBuilder.UnionLayoutCounts | mypyc/irbuild/ll_builder.py:2369-2394 | a union gets at most one branch per alternative, exactly one when all are native classes, none only when it is empty, and one `isinstance` test fewer than branches |
| LlBuilder.LowLevelIRBuilder.DecomposeUnionHelper | mypyc/irbuild/ll_builder.py:2335-2396 | the tests, assignments to one result register and jumps to one exit block follow `UnionMarks`: each native alternative that more follow is tested, the last branch is untested, and the exit block ends up current |
| LlBuilder.LowLevelIRBuilder.EmitDispatch | mypyc/irbuild/ll_builder.py:2371-2394 | the ops added mark the tested alternatives and then the one untested branch, adding two blocks per test, and leave the current block terminated |
| LlBuilder.LowLevelIRBuilder.EmitTestedAlternatives | mypyc/irbuild/ll_builder.py:2371-2385 | the first native alternatives each get an `isinstance` test, their own branch assigning the result and a jump to the exit, in declaration order |
| LlBuilder.LowLevelIRBuilder.EmitBranch | mypyc/irbuild/ll_builder.py:2379-2383 | one branch coerces the object, runs the per-item op, coerces its value to the result type, assigns the result register and jumps to the exit |
| LlBuilder.LowLevelIRBuilder.LoadInt | mypyc/irbuild/ll_builder.py:1257-1262 | a literal inside the short range is an immediate integer and adds no op; one outside is loaded by one `LoadLiteral` op |
| LlBuilder.LowLevelIRBuilder.IsSameNativeIntSigns | mypyc/irbuild/ll_builder.py:2245-2248 | appends the two sign tests and their equality, whose value is returned |
| LlBuilder.LowLevelIRBuilder.FloorHead | mypyc/irbuild/ll_builder.py:2210-2216 | a fresh result register receives the native op's value, then the branch on equal signs goes to `done`, otherwise to `tricky` |
| LlBuilder.LowLevelIRBuilder.DivideTricky | mypyc/irbuild/ll_builder.py:2217-2220 | the `tricky` block multiplies the quotient back and goes to `done` when it gives the dividend, to `adjust` otherwise |
| LlBuilder.LowLevelIRBuilder.ModTricky | mypyc/irbuild/ll_builder.py:2236-2238 | the `tricky` block goes to `done` when the remainder is zero, to `adjust` otherwise |
| LlBuilder.LowLevelIRBuilder.EmitAdjust | mypyc/irbuild/ll_builder.py:2221-2224 | the `adjust` block corrects the result register by one native op and jumps to `done` |
| LlBuilder.LowLevelIRBuilder.InlineFixedWidthDivide | mypyc/irbuild/ll_builder.py:2208-2225 | appends exactly the blocks of `DivideLayout`, returns the result register and leaves `done` current |
| LlBuilder.LowLevelIRBuilder.InlineFixedWidthMod | mypyc/irbuild/ll_builder.py:2227-2243 | appends exactly the blocks of `ModLayout`, returns the result register and leaves `done` current |
| LlArith.SignsRun | mypyc/irbuild/ll_builder.py:2245-2248 | running the sign comparison yields 1 exactly when both operands are negative or neither is |
| LlArith.HeadRuns | mypyc/irbuild/ll_builder.py:2210-2216 | running the shared head leaves the native result in the result register and goes to `done` exactly when the signs agree |
| LlArith.DivideTail | mypyc/irbuild/ll_builder.py:2217-2225 | from the `tricky` block, the truncated quotient is kept when exact and lowered by one otherwise |
| LlArith.ModTail | mypyc/irbuild/ll_builder.py:2236-2243 | from the `tricky` block, the truncated remainder is kept when zero and moved by the divisor otherwise |
| LlArith.DivideFloors | mypyc/irbuild/ll_builder.py:2208-2225 | for a nonzero divisor, running the code `inline_fixed_width_divide` lays out reaches `done` with Python's floor quotient in the result register |
| LlArith.ModFloors | mypyc/irbuild/ll_builder.py:2227-2243 | for a nonzero divisor, running the code `inline_fixed_width_mod` lays out reaches `done` with Python's floor remainder in the result register |
| LlArith.InlinedDivisionFits | mypyc/irbuild/ll_builder.py:2153-2180 | for a divisor other than 0 and -1 (the only divisors the builder inlines), the truncated quotient, its product with the divisor, the truncated remainder and the floor quotient and remainder all stay in the `w`-bit signed range |
| LlArith.SignedProduct | mypyc/irbuild/ll_builder.py:2217-2225 | the product of the truncated quotient and the divisor has the dividend's sign and is no larger in magnitude |
| LlArith.MinusOneOverflows | mypyc/irbuild/ll_builder.py:2154 | with the divisor -1, `-2^(w-1) / -1` leaves the `w`-bit range, which is why that divisor is not inlined |
| LlArgs.CountPosBounds | mypyc/irbuild/ll_builder.py:2483-2490 | the positional count is at most the number of kinds, equals it exactly when all are `ARG_POS`, and is zero exactly when none is |
| LlArgs.CountPosConcat | mypyc/irbuild/ll_builder.py:2486-2490 | the positional count of two kind lists joined is the sum of their counts |
| LlArgs.NumPositionalArgs | mypyc/irbuild/ll_builder.py:2483-2490 | without kinds, every value counts; with kinds, the number of `ARG_POS` kinds |
| LlArgs.NoBits | mypyc/irbuild/ll_builder.py:1144 | the initial bitmap word has all its bits clear |
| LlArgs.BitmapBit | mypyc/irbuild/ll_builder.py:1139-1153 | bit `b` of bitmap word `i` is set exactly when some optional formal with an overlapping error value, at running index `i * BITMAP_BITS + b`, received an actual argument |
| LlArgs.BitmapSnoc | mypyc/irbuild/ll_builder.py:1146-1151 | the bitmap after one more formal is the earlier bitmap with at most the bits that formal sets |
| LlArgs.WordBit | mypyc/irbuild/ll_builder.py:1148-1150 | within word `i`, `c & (BITMAP_BITS - 1)` is bit `b` exactly when the running index `c` is `i * BITMAP_BITS + b` |
| LlArgs.BitmapWord | mypyc/irbuild/ll_builder.py:1143-1152 | the inner loop computes bitmap word `i` as `Bitmap` defines it |
| LlArgs.BitmapArgs | mypyc/irbuild/ll_builder.py:1139-1152 | the `n` bitmap arguments, last word first, each the caller's override when one is given and otherwise the computed word |
| FuncIr.CountNeedsBit | mypyc/ir/func_ir.py:113-117 | the number of optional arguments whose type has an overlapping error value, which is at most the number of arguments |
| FuncIr.CountNeedsBitConcat | mypyc/ir/func_ir.py:113-117 | the count over two argument lists joined is the sum of their counts |
| FuncIr.BitmapArgCount | mypyc/ir/func_ir.py:113-118 | the number of bitmap words is the smallest number of 32-bit words with one bit per counted argument, zero exactly when none is counted |
| FuncIr.NumBitmapArgs | mypyc/ir/func_ir.py:113-118 | the counting loop and the rounding up give `BitmapArgCount` |
| FuncIr.BitmapArgs | mypyc/ir/func_ir.py:77-81 | `n` synthetic positional-only arguments, the one for word `n - 1` first |
| FuncIr.MakeSignature | mypyc/ir/func_ir.py:70-81 | the constructor keeps the given arguments and return type and appends exactly `num_bitmap_args` bitmap arguments, in reversed index order |
| FuncIr.BitmapArgsNeedNoBits | mypyc/ir/func_ir.py:70-81 | the appended bitmap arguments are never counted themselves, so rebuilding from a signature's arguments does not add more words |
| FuncIr.NoBitsInBitmaps | mypyc/ir/func_ir.py:77-81 | positional arguments never need a presence bit |
| FuncIr.RealArgs | mypyc/ir/func_ir.py:83-87 | the arguments without the trailing bitmap arguments; `FuncIr.RealArgsRoundTrip` states what it gives back |
| FuncIr.BoundSig | mypyc/ir/func_ir.py:89-93 | the signature without its first real argument; `FuncIr.BoundSigRealArgs` states its arguments and return type |
| FuncIr.Serialize | mypyc/ir/func_ir.py:98-103 | the real arguments and the return type, each serialized; `FuncIr.SerializeRoundTrip` states that deserializing gives the signature back |
| FuncIr.ComputeShortname | mypyc/ir/func_ir.py:182-184 | the class name, a dot and the name, or the name alone without a nonempty class name; `FuncIr.FullnameSplits` states how the parts are recovered |
| FuncIr.Fullname | mypyc/ir/func_ir.py:190-191 | the module name, a dot and the short name; `FuncIr.FullnameSplits` states how the parts are recovered |
| FuncIr.RealArgsRoundTrip | mypyc/ir/func_ir.py:83-87 | `real_args` of a constructed signature is exactly the argument list given to the constructor |
| FuncIr.BoundSigRealArgs | mypyc/ir/func_ir.py:89-93 | `bound_sig` is the signature constructed from the real arguments without the first, with the same return type |
| FuncIr.DeserializeArg | mypyc/ir/func_ir.py:55-62 | a serialized argument deserializes exactly when its kind number names an `ArgKind` |
| FuncIr.Deserialize | mypyc/ir/func_ir.py:105-110 | a serialized signature deserializes exactly when every argument's kind number is valid |
| FuncIr.SerializeRoundTrip | mypyc/ir/func_ir.py:98-110 | serializing drops the bitmap arguments and deserializing rebuilds them, giving back the same signature |
| FuncIr.MakeFuncDecl | mypyc/ir/func_ir.py:133-157 | `bound_sig` is absent exactly outside a class, is the signature itself for a static method, and otherwise has the real arguments minus the first |
| FuncIr.FullnameSplits | mypyc/ir/func_ir.py:181-191 | when no part contains a dot, splitting the full name at dots gives back the module, the class when there is a nonempty one, and the function name |
| FuncIr.AllValues | mypyc/ir/func_ir.py:317-345 | the loop over blocks and ops computes `AllValuesOf`, its specification as a fold over the op stream |
| FuncIr.AllValuesProps | mypyc/ir/func_ir.py:317-345 | the result starts with the arguments; every register added occurs nowhere earlier; every listed op produces a value; and every value-producing op and every assigned register is listed |
| FuncIr.CollectOpsWell | mypyc/ir/func_ir.py:325-343 | the facts of `AllValuesProps` hold after any prefix of the op stream |
| FuncIr.CollectStep | mypyc/ir/func_ir.py:327-343 | one more op keeps those facts |
| FuncIr.SeenIsListed | mypyc/ir/func_ir.py:322-343 | the `seen_registers` set holds exactly the registers already in the list |
| Nodes.KindValue | mypy/nodes.py:1968-1980 | every kind serializes to one of the six enum values 0 to 5 |
| Nodes.KindOfValue | mypy/nodes.py:1968-1980 | `ArgKind(v)` succeeds exactly for `0 <= v < 6`, and then names the kind whose value is `v` |
| Nodes.KindValueRoundTrip | mypy/nodes.py:1968-1980 | reading back a kind's value gives the kind |
| Nodes.KindClasses | mypy/nodes.py:1982-1995 | every kind is exactly one of required, optional and star; counting star kinds, exactly one of positional and named; and counting them only widens each class |
| Nodes.ExtendWellOrdered | mypy/nodes.py:4310-4331 | the loop's test on the next kind, from its four flags, holds exactly when the extended list is still in the order `POS* OPT* STAR? (NAMED or NAMED_OPT)* STAR2?` |
| Nodes.CheckArgKinds | mypy/nodes.py:4300-4334 | no failure exactly when the kinds are in the accepted order; otherwise exactly one, at the first kind that breaks it, with that kind's message and node |
| Nodes.PrefixBroken | mypy/nodes.py:4300-4334 | once a prefix breaks the order, every longer prefix does too, so stopping at the first failure loses nothing |
| Nodes.CheckArgNames | mypy/nodes.py:4337-4348 | no failure exactly when no name other than `None` repeats; otherwise one failure, at the first repeated name, with its message and node |
| Nodes.FlagsIn | mypy/nodes.py:4265-4266 | the names that are set, each of them and only them |
| Nodes.FlagsInConcat | mypy/nodes.py:4265-4266 | the set flags of a concatenation are those of each part, in the order of `names` |
| Nodes.FlagNode.GetFlags | mypy/nodes.py:4265-4266 | exactly the names in `names` whose attribute is set |
| Nodes.FlagNode.SetFlags | mypy/nodes.py:4269-4271 | every flag in the list is set, the others are kept, and afterwards `get_flags` includes every name that is in both lists |
| Nodes.MemberExprFullname | mypy/nodes.py:4274-4287 | a name exactly when the chain of attribute accesses bottoms out at a `NameExpr`, and then the chain's names joined by dots |
| Nodes.MemberExprFullnameSplits | mypy/nodes.py:4274-4287 | when no name contains a dot, splitting the result at dots gives back the chain of names |
| Nodes.TypeInfo.constructor | mypy/nodes.py:3199-3226 | a new class has the definition's full name and table, an empty MRO, and the type variables `add_type_vars` records: their names in order, whether one is a `ParamSpec`, and the prefix and suffix around the `TypeVarTuple` (none without one) |
| Nodes.TypeInfo.Get | mypy/nodes.py:3272-3277 | `None` exactly when no class of the MRO has the name; otherwise the binding in the first class that has it |
| Nodes.GetFrom | mypy/nodes.py:3272-3277 | the same MRO walk over a list of classes: the first table holding the name decides |
| Nodes.TypeInfo.HasBase | mypy/nodes.py:3455-3463 | true exactly when some class of the MRO has the full name |
| Nodes.HasBaseIn | mypy/nodes.py:3455-3463 | the same search over a list of classes |
| Nodes.TypeInfo.AddTypeVars | mypy/nodes.py:3246-3257 | the definition's type-variable names are appended in order; a `ParamSpec` sets its flag; the `TypeVarTuple`, when there is one, is recorded with the counts of type variables before and after it |
| Nodes.ScanTypeVars | mypy/nodes.py:3248-3257 | the loop computes the same names, flags, prefix and suffix |
| Nodes.TupleIndex | mypy/nodes.py:3252-3256 | the recorded index is a position holding a `TypeVarTuple` |
| Nodes.TupleIndexLast | mypy/nodes.py:3252-3256 | the recorded index is the last `TypeVarTuple`, and none is recorded exactly when there is none |
| Nodes.TupleSplit | mypy/nodes.py:3252-3256 | with one `TypeVarTuple`, the prefix plus the suffix plus one is the number of type variables |
| Nodes.TypeVarNames | mypy/nodes.py:3257 | one name per type variable, in declaration order |
| Nodes.ShortName | mypy/nodes.py:4373-4375 | the name with a `-redef` suffix removed is a prefix of it, and names without `-redef` are kept |
| Nodes.LocalDefinitions | mypy/nodes.py:4363-4381 | every yielded definition's node has the yielded full name, which lies under the prefix; and every local entry of the table is yielded under the prefix plus its unmangled name |
| Nodes.LocalDefinitionsFrom | mypy/nodes.py:4371-4381 | the walk past the last entry yields nothing |
| Nodes.EntryDefinitions | mypy/nodes.py:4372-4381 | an entry that is not local yields nothing; a local one yields first itself, under the prefix plus its unmangled name, with the given enclosing class |
| Nodes.EntryDefinitionsUnder | mypy/nodes.py:4376-4381 | everything an entry yields, including what a local class's own table yields, has a node carrying the yielded full name, which lies under the outer prefix |
| Nodes.LocalDefinitionsFromUnder | mypy/nodes.py:4371-4381 | the same for the walk from entry `i` on |
| Nodes.LocalEntriesYielded | mypy/nodes.py:4371-4379 | every local entry of the table is yielded under the prefix plus its unmangled name |
| Nodes.EntryDefinitionsYields | mypy/nodes.py:4372-4381 | a definition comes from an entry exactly when the entry is local and it is the entry itself or, for a class, something the class's own table yields under the class's full name with the class as the enclosing class |
| Nodes.LocalDefinitionsFromYields | mypy/nodes.py:4371-4381 | the walk from entry `i` yields a definition exactly when some entry from `i` on yields it |
| Nodes.LocalDefinitionsYields | mypy/nodes.py:4363-4381 | `local_definitions` yields a definition exactly when some entry of the table yields it, the recursion into local classes included |
| Nodes.LocalClassMembersFollow | mypy/nodes.py:4378-4381 | in what `local_definitions` yields, every local class is followed at once by what its own table yields under its full name with the class as the enclosing class |
| Nodes.ClassMembersFollow | mypy/nodes.py:4371-4381 | the same for the walk from entry `i` on |
| Nodes.EntryClassMembersFollow | mypy/nodes.py:4378-4381 | the same within what one entry yields |
| MypyBuild.ImportPriority | mypy/build.py:388-397 | an import inside a function gets `PRI_LOW`; a top-level `if MYPY`/`TYPE_CHECKING` import gets the larger of `PRI_MYPY` and the given priority; any other import gets the given priority |
| MypyBuild.ImportPriorityMonotone | mypy/build.py:388-397 | a more urgent priority for the import's form never gives a less urgent import priority |
| MypyBuild.DropLast | mypy/build.py:769-770 | `parts[:-k]` is the first `len - k` parts, or none once `k` reaches the length |
| MypyBuild.Prefixes | mypy/build.py:2010-2015 | one entry per proper dotted prefix of the id, the longest first |
| MypyBuild.CorrectRelImp | mypy/build.py:761-779 | an absolute import keeps its id; a relative import reports "No parent module" exactly when the id it resolves to is empty |
| MypyBuild.RelImpIsAncestor | mypy/build.py:761-779 | a level-`r` import from a plain module resolves to its `r`-th ancestor, the one `add_ancestors` lists at position `r - 1`, with the imported name appended when there is one |
| MypyBuild.RelImpInPackage | mypy/build.py:766-770 | in an `__init__` file, a level-one import resolves inside the package itself |
| MypyBuild.RelImpNoParent | mypy/build.py:771-776 | a relative import with nothing to import that climbs past the top package reports the missing parent |
| MypyBuild.LastIndex | mypy/build.py:2013 | the index of the last occurrence of the character, present exactly when the character occurs |
| MypyBuild.RSplitSnoc | mypy/build.py:2013 | cutting a dotted name at its last dot drops exactly its last component |
| MypyBuild.DotIffSeveral | mypy/build.py:2012 | a name joined from dot-free components contains a dot exactly when it has at least two of them |
| MypyBuild.AncestorStep | mypy/build.py:2012-2014 | one cut at the last dot gives the next shorter ancestor |
| MypyBuild.Ancestors | mypy/build.py:2009-2015 | the loop that cuts the id at its last dot collects exactly the proper dotted prefixes, longest first |
| MypyBuild.State.AddAncestors | mypy/build.py:2001-2015 | no ancestors for a file whose stem contains a dot, otherwise every proper dotted prefix of the id, longest first; nothing else changes |
| MypyBuild.AddDep | mypy/build.py:2252-2258 | `dep` ends up among the dependencies, appended only when absent, and leaves the suppressed list; both lists stay duplicate-free |
| MypyBuild.SuppressDep | mypy/build.py:2260-2266 | `dep` ends up among the suppressed, appended only when absent, and leaves the dependencies; both lists stay duplicate-free |
| MypyBuild.State.AddDependency | mypy/build.py:2252-2258 | the lists change as `AddDep` says, each list stays in step with its set, and dependencies and suppressed stay disjoint |
| MypyBuild.State.SuppressDependency | mypy/build.py:2260-2266 | the lists change as `SuppressDep` says, keeping the same invariant |
| MypyBuild.PrioritiesMin | mypy/build.py:2290-2291 | an id has a priority exactly when some entry names it, and then it is the least priority among its entries, capped at `PRI_ALL` |
| MypyBuild.DepIdsProps | mypy/build.py:2290-2296 | the dependencies the entries add are duplicate-free and are exactly the ids they name other than the module itself |
| MypyBuild.DepLinesKeys | mypy/build.py:2294-2296 | a line is recorded for exactly those dependencies |
| MypyBuild.DepLineFirst | mypy/build.py:2294-2296 | each dependency's line is that of the first entry naming it |
| MypyBuild.ComputedDepsProps | mypy/build.py:2290-2300 | after `compute_dependencies` a module never depends on itself, depends on `builtins` exactly when it is not `builtins`, and depends once on each other module its entries name |
| MypyBuild.ComputedPriorities | mypy/build.py:2290-2300 | every dependency named by an entry has the least of its entries' priorities capped at `PRI_ALL` (at most each entry's priority, and equal to one of them unless it is `PRI_ALL`), and an implied `builtins` has `PRI_HIGH` |
| MypyBuild.State.ComputeDependencies | mypy/build.py:2268-2302 | the six collections are rebuilt from the entries, giving the dependencies, priorities and lines above and no suppressed ones, with the list/set invariant kept |
| MypyBuild.State.DependencyPriorities | mypy/build.py:2566-2567 | one priority per dependency and then per suppressed dependency |
| MypyBuild.PrioritiesOf | mypy/build.py:2566-2567 | one looked-up priority, `PRI_HIGH` by default, per module |
| MypyBuild.GetCacheNames | mypy/build.py:1229-1262 | an entry of the cache map wins, with no deps file; otherwise the meta and data names are the module's path prefix plus `.meta.json` and `.data.json`, and the deps name exists exactly in fine-grained mode |
| MypyBuild.CachePrefixNoDot | mypy/build.py:1254-1257 | the cache prefix contains no dot, so the suffixes above are the only extensions |
| MypyBuild.FilterDeps | mypy/build.py:3503-3508 | exactly the dependencies inside `vertices` whose priority, `PRI_HIGH` by default, is below `pri_max` |
| MypyBuild.FilterDepsConcat | mypy/build.py:3503-3508 | filtering distributes over concatenation, so the dependencies' order is kept |
| MypyBuild.DepsFiltered | mypy/build.py:3499-3508 | nothing for an id outside `vertices`, else the filtered dependencies of its state |
| MypyBuild.StatsAddedSpec | mypy/build.py:902-907 | each named counter grows by its value from its old value, or starts at it; every other counter is unchanged and no other key appears |
| MypyBuild.BuildManager.AddStats | mypy/build.py:902-907 | the counters after the call are `StatsAdded` of those before |
| MypyBuild.AncestorEntries | mypy/build.py:790-795 | one entry per dotted prefix of the imported name, shortest first, at the ancestor priority |
| MypyBuild.ImportedAncestors | mypy/build.py:790-795 | those entries name the same packages `add_ancestors` computes for the imported module, in the opposite order |
| MypyBuild.FileEntriesConcat | mypy/build.py:783-819 | the entries of a list of imports are those of its parts, concatenated |
| MypyBuild.FileEntriesAt | mypy/build.py:783-819 | each reachable import contributes its own entries in place, and an unreachable one contributes none |
| MypyBuild.FromImportDependsOnModule | mypy/build.py:796-815 | a `from` import always yields an entry, on its line, for the module it imports from, even when every imported name is a submodule |
| MypyBuild.InsertSorted | mypy/build.py:823 | inserting an entry into entries sorted by decreasing dot count keeps them sorted |
| MypyBuild.SortByDots | mypy/build.py:823 | the result is a permutation of the entries, sorted by decreasing number of dots |
| MypyBuild.SortStable | mypy/build.py:823 | entries with the same dot count keep their relative order, as Python's stable sort does |
| MypyBuild.AllImportedModulesInFile | mypy/build.py:752-824 | the entries of each reachable import in turn, then stably sorted so that a module comes before its ancestors |
| EmitModule.DepsFirstSnoc | mypyc/codegen/emitmodule.py:1255-1256 | appending an item whose dependencies are all listed keeps every item after its dependencies |
| EmitModule.Visit | mypyc/codegen/emitmodule.py:1250-1257 | `visit` extends the result, which stays duplicate-free with every item after its dependencies, and marks exactly what it lists; the item is visited afterwards |
| EmitModule.Toposort | mypyc/codegen/emitmodule.py:1242-1263 | for an acyclic dict whose dependencies are keys, every key exactly once, each after its dependencies |
| EmitModule.DepsOf | mypyc/codegen/emitmodule.py:1152-1153 | the dependency dict has one entry per declaration, holding that declaration's dependencies |
| EmitModule.ToposortDeclarations | mypyc/codegen/emitmodule.py:1139-1167 | each declaration once, every declaration after those it depends on |
| EmitModule.FirstIndex | mypyc/codegen/emitmodule.py:1175 | the index of the first occurrence of the character, present exactly when it occurs |
| EmitModule.GlobalBase | mypyc/codegen/emitmodule.py:1172-1176 | the name follows the type, or, for an array type, goes just before its first `[` |
| EmitModule.GlobalDecl | mypyc/codegen/emitmodule.py:1172-1181 | the declarator followed by `;`, with no dependencies, and a definition exactly when the initializer is nonempty |
| EmitModule.EmitterContext.DeclareGlobal | mypyc/codegen/emitmodule.py:1169-1183 | an existing declaration of the name is never overwritten; otherwise the new one is recorded under the name |
| EmitModule.Pointerize | mypyc/codegen/emitmodule.py:477-485 | every occurrence of the name becomes `(*name)` in a declaration holding `(` and `*name` otherwise; `EmitModule.PointerizeOnce` states the single-occurrence case |
| EmitModule.GroupDir | mypyc/codegen/emitmodule.py:488-490 | the group name's dotted parts but the last, joined by the path separator; `EmitModule.GroupDirOfModule` states it for a group named after a module |
| EmitModule.GetIrCacheName | mypyc/codegen/emitmodule.py:342-344 | the meta cache name with `.meta.json` replaced by `.ir.json`; `EmitModule.IrCacheNameBesideMeta` states the result |
| EmitModule.PointerizeOnce | mypyc/codegen/emitmodule.py:477-485 | when the name occurs once in the declaration, exactly that occurrence becomes `(*name)` for a function declarator and `*name` otherwise |
| EmitModule.GroupDirOfModule | mypyc/codegen/emitmodule.py:488-490 | the directory of a group named after a module is the path of that module's package |
| EmitModule.IrCacheNameBesideMeta | mypyc/codegen/emitmodule.py:342-344 | without a cache-map entry the IR cache file is the meta cache file's prefix with `.ir.json` |
| EmitModule.IsFastcallSupported | mypyc/codegen/emitmodule.py:1266-1273 | false exactly for a method named `__init__` |
| EmitModule.LexTotal | mypyc/codegen/emitmodule.py:126 | Python's string order is total |
| EmitModule.InsertStringSorted | mypyc/codegen/emitmodule.py:126 | inserting a string into a sorted list keeps it sorted |
| EmitModule.SortStrings | mypyc/codegen/emitmodule.py:126 | `sorted` returns a sorted permutation of the module names |
| EmitModule.SortedModules | mypyc/codegen/emitmodule.py:126 | sorting keeps exactly the same module names |
| EmitModule.AddModules | mypyc/codegen/emitmodule.py:127-129 | each module of the group maps to the group's name and sorted module list; other entries are kept |
| EmitModule.GroupMapKeys | mypyc/codegen/emitmodule.py:121-129 | the group map holds exactly the modules of the groups |
| EmitModule.GroupMapLast | mypyc/codegen/emitmodule.py:121-129 | a module listed by several groups gets the entry of the last one |
| EmitModule.GroupMapSelf | mypyc/codegen/emitmodule.py:121-129 | a module's group list always includes the module itself |
| EmitModule.MypycPlugin.constructor | mypyc/codegen/emitmodule.py:121-131 | the plugin's group map is `GroupMap` of the groups |
| EmitModule.MypycPlugin.GetAdditionalDeps | mypyc/codegen/emitmodule.py:183-185 | nothing for a module in no group; otherwise one entry `(10, m, -1)` per module `m` of its group, in the group's order, the module itself included |
| EmitModule.GroupmatesAreDependencies | mypyc/codegen/emitmodule.py:183-185 | once `compute_dependencies` takes the plugin's entries, a module depends on each of its group-mates and still never on itself |
| MypycBuild.FilterSources | mypyc/build.py:122-139 | at most the given sources, in order |
| MypycBuild.FilterSourcesMember | mypyc/build.py:130-139 | a source is compiled exactly when it is one of the sources, its path was asked for (when paths are given), and, in separate mode, it has a path that does not end with `__init__.py` |
| MypycBuild.FilterSourcesConcat | mypyc/build.py:130-139 | filtering distributes over concatenation, so the sources' order is kept |
| MypycBuild.AnyDotted | mypyc/build.py:441 | true exactly when some source's module name contains a dot |
| MypycBuild.UseSharedLib | mypyc/build.py:439-443 | a shared library is used exactly when there is more than one source, some module is inside a package, or one is forced |
| MypycBuild.GroupName | mypyc/build.py:202-208 | a single module names its group; any other list is named by the first 20 characters of the hex digest of the comma-joined names |
| MypycBuild.Singletons | mypyc/build.py:378-379 | one unnamed group per source, in source order |
| MypycBuild.InFilesMember | mypyc/build.py:384 | a source is in a listed group exactly when its path is among that group's files |
| MypycBuild.ListedGroups | mypyc/build.py:383-385 | one group per listed entry, holding the sources in its files, with its given name |
| MypycBuild.UnusedMember | mypyc/build.py:386-389 | a source gets a singleton group exactly when no listed group took it |
| MypycBuild.UsedSourcesMember | mypyc/build.py:382-386 | the used sources are exactly those in some listed group's files |
| MypycBuild.NameGroup | mypyc/build.py:393-400 | with a shared library, a group without a nonempty name takes the override or else its `group_name`; otherwise the name is kept; the sources never change |
| MypycBuild.ConstructGroups | mypyc/build.py:362-402 | the loops build `Groups`: the initial groups for the `separate` setting, each named by `NameGroup` |
| MypycBuild.Groups | mypyc/build.py:362-402 | `construct_groups`: the groups for `separate` and the shared-library naming; the `MypycBuild.Groups…` lemmas below state each case |
| MypycBuild.GroupsSources | mypyc/build.py:393-400 | naming changes no group's sources |
| MypycBuild.GroupsEach | mypyc/build.py:378-379 | with `separate=True`, one singleton group per source, in source order |
| MypycBuild.GroupsNone | mypyc/build.py:390-391 | with `separate=False`, exactly one group, holding every source |
| MypycBuild.GroupsListed | mypyc/build.py:380-385 | with an explicit list, the listed groups come first, in the given order, each with the sources in its files |
| MypycBuild.GroupsUnused | mypyc/build.py:386-389 | after the listed groups comes one singleton group per source no listed group took, in source order |
| MypycBuild.GroupsNamed | mypyc/build.py:393-400 | with a shared library every group ends up named; without one the names stay as given |
| MypycBuild.GroupsCover | mypyc/build.py:362-402 | whatever `separate` is, every source lands in some group |
| MypycBuild.MsvcOptLevel | mypyc/build.py:602-605 | optimisation level `0` becomes `d`, `1` to `3` become `2`, anything else is kept |
| MypycBuild.MsvcDebugLevel | mypyc/build.py:606-611 | debug level `0` becomes `NONE`, `1` `FASTLINK`, `2` and `3` `FULL`, anything else is kept |
| MypycBuild.MsvcCflags | mypyc/build.py:600-625 | the flags start with the mapped optimisation and debug levels, and contain `/GL-` exactly in multi-file mode and the trace define exactly when tracing |
| CheckExpr.FixedCount | mypy/checkexpr.py:4490-4498 | never more than the tuple's items |
| CheckExpr.MinTupleLength | mypy/checkexpr.py:4490-4498 | a length that is never negative; `CheckExpr.MinTupleLengthCounts` states its value |
| CheckExpr.MinTupleLengthCounts | mypy/checkexpr.py:4490-4498 | without an unpack the minimum length is the item count; with one it is the other items plus the unpacked item's own minimum (a `TypeVarTuple`'s `min_len`, zero for `*tuple[X, ...]`) |
| CheckExpr.FixedCountUnpacks | mypy/checkexpr.py:4490-4498 | with at most one unpack, the fixed items are all the items or all but one |
| CheckExpr.TupleIndex | mypy/checkexpr.py:4500-4546 | the type of `left[n]`, or none when the index is out of range; `CheckExpr.TupleIndexFixed`, `TupleIndexMirror`, `TupleIndexVariadic`, `TupleIndexLast` and `TupleIndexNoUnpack` state its cases, and `CheckExpr.TupleIndexExpansions` ties the variadic cases, unions included, to the tuples the type stands for |
| CheckExpr.TupleIndexExpansions | mypy/checkexpr.py:4509-4546 | with an unpack, `left[n]` has a type exactly when index `n` exists in every tuple the type stands for (the fixed items around at least the minimum number of copies of the variadic element), and `x` is a member of that type (the item, or a member of the union) exactly when some such tuple has `x` at index `n` |
| CheckExpr.TupleIndexAfterUnpack | mypy/checkexpr.py:4529-4535 | a non-negative index at or after the unpack gives a union whose members are exactly the items some expansion has at that index: the variadic element and the fixed items after the unpack it may reach |
| CheckExpr.TupleIndexFromEndUnion | mypy/checkexpr.py:4536-4546 | a negative index that may reach the unpack gives a union whose members are exactly the items some expansion has at that index: the fixed items before the unpack it may reach and the variadic element |
| CheckExpr.TupleIndexFixed | mypy/checkexpr.py:4501-4507 | without an unpack, `left[n]` has a type exactly when `-len <= n < len`, and it is the item `n` names, counting negative indices from the end |
| CheckExpr.TupleIndexMirror | mypy/checkexpr.py:4503-4507 | without an unpack, `n - len` names the same item as `n` |
| CheckExpr.TupleIndexVariadic | mypy/checkexpr.py:4524-4541 | with an unpack, a non-negative index from the minimum length on is rejected, one before the unpack is that item, and a negative index past the minimum length is rejected |
| CheckExpr.TupleIndexLast | mypy/checkexpr.py:4538-4543 | with an unpack that is not last, `left[-1]` is the last item |
| CheckExpr.TupleIndexNoUnpack | mypy/checkexpr.py:4500-4546 | the type of an index never holds the unpack itself, only fixed items and the variadic element type |
| CheckExpr.UnionIntsSpec | mypy/checkexpr.py:4603-4610 | a union yields values exactly when every item is an `int` literal, and then yields their values in order |
| CheckExpr.IntLiterals | mypy/checkexpr.py:4580-4617 | the integers an index expression or its type stands for, or none; `CheckExpr.IntLiteralsSyntactic`, `CheckExpr.UnionIntsSpec` and `CheckExpr.TryGettingIntLiterals` state its cases |
| CheckExpr.IntLiteralsSyntactic | mypy/checkexpr.py:4592-4600 | an integer literal, `-literal` and `+literal` give their value (negated for minus) whatever type is inferred |
| CheckExpr.TryGettingIntLiterals | mypy/checkexpr.py:4580-4617 | the loop returns what the syntactic forms, the last known value, a literal type or an all-literal union give, and `None` otherwise |
| CheckExpr.IsDuplicateMapping | mypy/checkexpr.py:6461-6483 | whether several actuals mapped to one formal are a duplicate; `CheckExpr.DuplicateMappingExempt`, `DuplicateMappingPlain` and `DuplicateMappingTypedDict` state when |
| CheckExpr.DuplicateMappingExempt | mypy/checkexpr.py:6461-6483 | zero or one actual, exactly `*args, **kwargs`, or only non-`TypedDict` `**kwargs` never make a duplicate mapping |
| CheckExpr.DuplicateMappingPlain | mypy/checkexpr.py:6461-6483 | two or more actuals of which one is neither `*args` nor `**kwargs` always make a duplicate |
| CheckExpr.DuplicateMappingTypedDict | mypy/checkexpr.py:6461-6483 | two or more actuals other than `*args, **kwargs`, one of them a `TypedDict` `**kwargs`, make a duplicate |
| CheckExpr.Placed | mypy/checkexpr.py:2876-2896 | no more items than the overload has |
| CheckExpr.PlacedConcat | mypy/checkexpr.py:2876-2896 | placing keeps the items' relative order: the items of a list made of two parts are placed part by part, the first part's before the second's |
| CheckExpr.PlacedMember | mypy/checkexpr.py:2876-2896 | an item lands in a list exactly when it is an overload item with that placement |
| CheckExpr.ArgsHaveStar | mypy/checkexpr.py:2868-2874 | the flag is set exactly when some actual of that star kind has no fixed shape |
| CheckExpr.PlausibleOverloadCallTargets | mypy/checkexpr.py:2841-2898 | the loops return the star-taking plausible items, then the other plausible items |
| CheckExpr.PlausibleTargetsOrder | mypy/checkexpr.py:2876-2898 | every target is a plausible overload item, and every item that takes the caller's shapeless star arguments comes before every item that does not |
| CheckExpr.PlausibleTargetsComplete | mypy/checkexpr.py:2876-2898 | every plausible item is among the targets |
| CheckExpr.MergeKinds | mypy/checkexpr.py:3201-3211 | a successful merge keeps the number of arguments |
| CheckExpr.CombinedKinds | mypy/checkexpr.py:3196-3215 | a successful merge has the first signature's number of arguments |
| CheckExpr.MergeKindsSpec | mypy/checkexpr.py:3201-3211 | merging one target succeeds exactly when each position's kinds are equal or both positional, and gives the common kind or `ARG_POS` there |
| CheckExpr.CombinedKindsSpec | mypy/checkexpr.py:3185-3215 | the signatures merge (no `too_complex`) exactly when all have the same length and every column is all one kind or all positional; a uniform column keeps its kind, a mixed positional one becomes `ARG_POS` |
| CheckExpr.MergeablePrefix | mypy/checkexpr.py:3196-3215 | what merges for all signatures merges for the earlier ones |
| CheckExpr.CombineKinds | mypy/checkexpr.py:3185-3215 | the loop sets `too_complex` exactly when the merge fails, and otherwise returns the merged kinds |
| CheckExpr.CombinedNoneExtends | mypy/checkexpr.py:3196-3215 | once the merge fails, later signatures cannot revive it (so the source's early `break` is sound) |
| Seqs.DedupLoop | mypy/checkexpr.py:3137-3143 | the `seen`-set loop returns each pair the first time it appears, in order: no duplicates and no pair lost |
| Seqs.DedupIsFirstOccurrences | mypy/checkexpr.py:3137-3143 | de-duplication through a `seen` set keeps exactly the first occurrences, in order |
| Seqs.DedupProps | mypy/checkexpr.py:3137-3143 | de-duplication leaves every element exactly once |
| TupleTypes.FindUnpack | mypy/meet.py:974-975 | `None` exactly when no item is unpacked; otherwise the position of an unpacked item |
| TupleTypes.OnlyUnpackAtFound | mypy/meet.py:974-975 | with at most one unpacked item, the one found is the only one |
| Meet.PossibleVariants | mypy/meet.py:221-268 | a TypeVar with values stands for its values, a union for its items, an overload for its items |
| Meet.PossibleVariantsEmpty | mypy/meet.py:221-268 | only a union or an overload without items has no variants |
| Meet.PossibleVariantsPlain | mypy/meet.py:267-268 | any other type is its own only variant |
| Meet.PossibleVariantsBound | mypy/meet.py:248-260 | a TypeVar without values and a TypeVarTuple stand for their upper bound; a ParamSpec for `object` when its bound is an instance, for `Any` otherwise |
| Meet.AreTypedDictsOverlapping | mypy/meet.py:646-667 | the two loops return true exactly when every key required by either dict is in both, with overlapping item types |
| Meet.TypedDictsOverlapSymmetric | mypy/meet.py:646-667 | the overlap test is symmetric whenever the overlap of item types is |
| Meet.OptionalKeyIrrelevant | mypy/meet.py:663-666 | adding an item under a key neither dict requires does not change the verdict |
| Meet.TypedDictOverlapsItself | mypy/meet.py:646-667 | a TypedDict overlaps itself when each of its item types overlaps itself |
| Meet.MissingRequiredKey | mypy/meet.py:651-653 | a key one dict requires and the other lacks rules out an overlap |
| Meet.ExpandItem | mypy/meet.py:713-721 | a fixed item stays as it is; an unpacked item becomes `extra` copies of its element type |
| Meet.ExpandTupleIfPossible | mypy/meet.py:706-722 | the loop builds the expansion, and a tuple with more than `target + 1` items comes back unchanged |
| Meet.ExpandConcat | mypy/meet.py:709-721 | expansion distributes over concatenation |
| Meet.ExpandNoUnpack | mypy/meet.py:710-712 | items without an unpack are not changed |
| Meet.ExpandFixed | mypy/meet.py:706-722 | a tuple without an unpack is never changed |
| Meet.ExpandSplit | mypy/meet.py:709-721 | with its only unpack at `u`, expansion replaces just item `u` |
| Meet.ExpandOneUnpack | mypy/meet.py:706-722 | a tuple with one unpack and at most `target + 1` items becomes a fixed tuple of exactly `target` items: the prefix, copies of the variadic element, the suffix |
| Meet.ExpandAllItems | mypy/meet.py:709-721 | expansion leaves no unpacked item |
| Meet.AdjustTuple | mypy/meet.py:727-732 | a result exactly when `left` is `tuple[X, ...]`, then a fixed tuple of `X` as long as `r` when `r` is a tuple and of length one otherwise |
| Meet.AdjustedTupleFixed | mypy/meet.py:727-732 | the adjusted tuple has the other side's length and is left alone by expansion |
| Meet.MeetTuples | mypy/meet.py:965-1041 | the method returns the tuple meet its three cases define |
| Meet.MeetFixedItems | mypy/meet.py:976-982 | the loop meets two fixed tuples item by item, `t`'s item first |
| Meet.MeetSameShapeItems | mypy/meet.py:1003-1009 | the two loops meet prefixes and suffixes item by item around the met variadic item |
| Meet.MeetVariadicItems | mypy/meet.py:1028-1041 | the three loops meet the fixed tuple's prefix, middle and suffix with the variadic prefix, element and suffix |
| Meet.MeetFixedTuples | mypy/meet.py:976-982 | two fixed tuples meet exactly when their lengths agree, item by item |
| Meet.MeetFixedVariadic | mypy/meet.py:1011-1041 | a fixed and a variadic tuple meet exactly when the variadic item is `*tuple[X, ...]` and the fixed tuple has at least the variadic tuple's other items; the meet is fixed, as long as the fixed tuple, prefix, middle and suffix met positionally |
| Meet.MeetTuplesFixedSymmetric | mypy/meet.py:1011-1019 | the meet of a fixed and a variadic tuple does not depend on which is `s` |
| Meet.MeetVariadicTuples | mypy/meet.py:983-1010 | two variadic tuples meet only with equal lengths, the unpack at one place and both unpacks `*tuple[...]`; the meet keeps that shape and its variadic item is the meet of the two |
| Meet.MeetTypeList | mypy/meet.py:1151-1159 | the loop returns `Any` for no types, else the left fold of the meet from the first |
| Meet.FoldMeetConcat | mypy/meet.py:1157-1158 | folding over two parts folds the second from the fold of the first |
| Meet.FoldMeetAssoc | mypy/meet.py:1157-1158 | with an associative meet, folding from `acc` is `acc` met with the fold of the rest |
| Meet.MeetAllConcat | mypy/meet.py:1151-1159 | with an associative meet, the meet of a list is the meet of the meets of any two non-empty parts |
| Meet.MeetAllSnoc | mypy/meet.py:1151-1159 | one type is its own meet; one more type is met with the meet so far |

## Left out

- The passes that insert reference counts, exception handling and uninitialised-value checks, and the lowering and spilling passes: `mypyc/codegen/emitmodule.py` calls them, but their modules are not part of this model.
- Vtable construction (`mypyc/irbuild/main.py`) is not part of this model. The vtable search takes the vtable as given.
- The platform constants live in `mypyc_util.h` and `mypyc/common.py`, which are not part of this model. The model fixes a 64-bit build: 64-bit words, short integers within ±2^62, and 32-bit bitmap words.
- The slow paths of `CPy.h` (`CPyTagged_Add_` and the others), its dict, list, str and exception helpers, argument parsing, float operations, and free-threaded immortalisation are left out. They are calls into the Python C API, floating point, or concurrency. A fast path's result is stated only where it does not defer to the slow path.
- TaggedInt.Invert: the source also sends `x == 2^61` to the slow path although the inline result would fit. The model keeps that guard and states the fast path only where the source takes it.
- CpyRuntime.Heap.FromObject, CpyRuntime.Heap.StealFromObject and CpyRuntime.Heap.BorrowFromObject take the integer the object holds as a parameter. `CPyLong_AsSsize_tAndOverflow` is not part of this model; its overflow flag is read as the value lying outside the short-integer range, as the comment above `CPyTagged_FromObject` in `CPy.h` describes.
- CpyRuntime.Heap.IncRef and CpyRuntime.Heap.DecRef stand for `Py_INCREF` and `Py_DECREF`: one counter per object and no deallocation at zero.
- The IR op classes and RTypes of `mypyc/ir/ops.py` and `mypyc/ir/rtypes.py` are not part of this model. The ops and types are a small datatype holding only what the builder's decisions depend on. Coercions and C-call matching are left out.
- IrExec.Run: the executable semantics of those ops is this model's own, with a `fuel` bound on jumps. C division by zero is undefined and is read as 0; the inlined division and modulo are guarded against it.
- LlArith.DivideFloors and LlArith.ModFloors: IR integers are unbounded here, so the native width of `int64`, `int32` and `int16` and C overflow are not modelled and both lemmas hold for every nonzero divisor, -1 included. The dispatch in `fixed_width_int_op` (mypyc/irbuild/ll_builder.py:2153-2180), which inlines only for a constant divisor outside (-1, 0), is not part of this model; `LlArith.InlinedDivisionFits` shows that under that guard no emitted value leaves the native range.
- LlBuilder.LowLevelIRBuilder.DecomposeUnionHelper: the per-item callback is an `ItemProcess`. Only the attribute read of `union_get_attr` is spelled out; any other callback is `Opaque`.
- Most of `mypy/checkexpr.py` and `mypy/meet.py` are left out: inference, subtyping, joins, plugins and the type visitors. Where a helper consults them, their answer is a parameter: `check_argument_count` (`OverloadItem.countMatches`), `has_shape` (`argHasShape`), whether an actual's type is a `TypedDict`, `is_overlapping`, and `meet`.
- CheckExpr.CombineKinds covers only the merging of argument kinds. The union of argument and return types, `merge_typevars_in_callables_by_name` and `make_simplified_union` are left out.
- `UnionType.make_union` lives in `mypy/types.py`, which is not part of this model. `CheckExpr.MakeUnion` follows its documented behaviour: one item is that item, several items form a union that is not simplified.
- Meet.MeetTuples: the meet of two variadic items is a parameter (`meetVariadic`). It gives the element type of the resulting `tuple[...]` instance, or `None` when the meet is not an instance. `self.meet` and `meet_types` are both the parameter `meet`.
- TupleTypes.FindUnpack: `find_unpack_in_list` and `split_with_prefix_and_suffix` (in `mypy/typeops.py` and `mypy/types.py`) are not part of this model. `FindUnpack` is stated by its contract, and the split is written out positionally in `Meet.VariadicMeet`.
- Meet.AreTypedDictsOverlapping: a TypedDict's `required_keys` set is a sequence, which fixes the order the loops visit the keys. The result does not depend on that order.
- The file system, clock and JSON parts of `mypy/build.py` are left out: cache metadata, writing and deleting the cache, loading and processing the graph, plugin loading, mtime and hash checks. They depend on the file system, `os.stat` and external modules.
- The strongly connected components and their order in `mypy/build.py` are left out. They rely on `mypy/graph_utils.py`, which is not part of this model.
- The MRO computation (`calculate_mro`, in `mypy/mro.py` and the semantic analyser) is not part of this model. `TypeInfo.Get` and `TypeInfo.HasBase` read whatever MRO the class has been given; the other fields `TypeInfo.__init__` sets are left out.
- MypyBuild.State.constructor sets up only the fields that the dependency operations use. Everything `State.__init__` does to find, read and parse the module is left out.
- MypyBuild.AllImportedModulesInFile takes the parsed imports of a file as a list. Parsing and the `ImportBase` classes are left out.
- MypyBuild.GetCacheNames takes the `cache_map` entry for the module's path as an input (`mapped`), already made relative to the cache root. `normpath` and `os.path.relpath` are left out, and paths are joined with `/`.
- EmitModule.Toposort and EmitModule.ToposortDeclarations require a dependency dict that is closed and acyclic, shown by a ghost rank. On a cycle the source recurses without end, so no result is stated there.
- EmitModule.PointerizeOnce covers a declaration in which the name occurs once. `str.replace` rewrites every occurrence; `Strings.ReplaceAll` models that, but the lemma only states the single-occurrence case.
- The C text emission of `mypyc/codegen/emitmodule.py` is left out: module init, export tables, and writing files. It is string plumbing around the Python C API.
- MypycBuild.GroupName: the SHA-1 hex digest is a parameter (`hexDigest`). Hashing is a library call.
- The setuptools and distutils integration of `mypyc/build.py` is left out: writing files, compiler invocation, and the non-MSVC flags. So is the test tooling under `mypy/test`.
