# Dafny model of the XSan instrumentation passes

XSan is a compiler plugin that composes AddressSanitizer, ThreadSanitizer and MemorySanitizer.  Its
passes replace simple checks by cheaper ones: many checks by one, a byte loop by wide stores, a
per-bit question by a formula, a region check by a comparison of end points.  This project models
those replacements and proves when they mean the same as what they replace.  Where they do not, it
proves the exact condition, or gives an input that separates the two.

| files | what they model |
|---|---|
| `Cfg`, `SimpleLoop`, `LoopCounter`, `CombinedCheck`, `AddRecRewrite`, `RewrittenCheck`, `MopFilter` | the loop optimisation: which loops qualify, how often an access in them runs, where the count comes from, which bytes the combined check probes, the rewriting of address recurrences and the check then emitted, the merging of accesses to one address |
| `CoveragePruning` | leaving out coverage callbacks by dominance |
| `Bits`, `CompareShadow`, `ShadowPropagation` | MSan's shadow formulas for bit-vectors of any width |
| `ParamTls`, `VarArgs`, `Splices` | MSan's thread-local areas for argument shadow |
| `ShadowWriter`, `StackFrame`, `AccessCheck` | ASan's shadow stores, the life of a stack frame's shadow, the emitted check |
| `BitOps`, `ShadowLayout`, `ShippedLayout` | the shared address-space layout, its constraints, and the layouts in the two shipped headers |
| `UbsanTagging`, `AccessSelection` | the worklist walks that mark UBSan instructions, and TSan's choice of accesses |
| `Arith` | arithmetic helpers |

Code that works step by step is modelled by methods and classes with the same loops and fields, each
proved against a specification; expressions are functions.  Dominance is defined by paths, a
recurrence by its values, a counter by integers modulo 2^w, a bit-vector by a sequence of bits, and
the thread-local and shadow memories by arrays.

## Where the code and its promises part

- `src/instrumentation/Instrumentation.cpp:855-859`: the example gives 0x08 for 0x10 - 8 + 4; the
  code's arithmetic gives 0x0C, and the model follows the code.
- `src/instrumentation/Instrumentation.cpp:792` and `:804-805`: the inserted counter saturates at
  2^w - 1, while the other two sources of the count are capped at 2^w (`InsertedPhiIsExact`).  Counters
  narrower than a pointer belong to rewritten accesses; `InsertedPhiMatches` says exactly when the
  check is then right, for every accepted access.
- `src/instrumentation/Instrumentation.cpp:755-763`: the correction of a reused phi by one carries both
  no-wrap flags, so at some numbers of executions it is poison; for a zero-based 32-bit counter already
  at 2^31 (`HalfwayIsPoison`).  `ReusedPhiIsExact` has the exact set.
- `src/runtime/lib/xsan/xsan_interface.cpp:80-82`: a step that is zero at run time makes the bounds
  equal, and nothing is checked although the program touched its base address (`ZeroStepTouches`,
  `EmitRewrittenCheck`).
- `src/instrumentation/Instrumentation.cpp:102-105` calls the rewritten recurrence "not equivalent";
  `RewriteIsExact` says in which iterations it is.  `src/instrumentation/Instrumentation.cpp:1338-1341`
  accepts every cyclic access with zero offset; `CyclicIsExact` says which of them are right, for every
  start, step, cast and multiplier.  Those with step one are, unless the index is sign-extended
  (`CyclicStepOne`, `CyclicStepOneSigned`); `CyclicStepFourFails`, `CountDownFails` and
  `SignedIndexFails` are inputs for which the check covers addresses the program never uses.
- `src/instrumentation/Instrumentation.cpp:1178-1185`: the comment asks duplicates to agree in type;
  the code compares addresses only.  `KeptChecksSubsume` gives the exact condition, `WiderReadIsLost`
  an input that fails it.
- `src/instrumentation/ThreadSanitizer.cpp:463-480` compares addresses only as well, so the check of a
  narrow store can stand in for a wider load (`WiderLoadIsDropped`); `WidthsAreKept` gives the exact
  condition.
- `src/instrumentation/SanitizerCoverage.cpp:555-558`: each pruning rule alone loses nothing, and neither
  do the two together where they never meet (`CoverageIsComplete`).  Splitting critical edges, as edge
  coverage does (`src/instrumentation/SanitizerCoverage.cpp:622-623`), keeps them apart if every
  predecessor is reachable (`EdgeCoverageIsComplete`).  Otherwise coverage can be lost: with an
  unreachable predecessor (`UnreachablePredecessorLosesCoverage`), with critical edges into landing
  pads, which are not split (`LandingPadLosesCoverage`), and in block coverage, which splits nothing
  (`TogetherTheRulesLoseCoverage`).
- `src/instrumentation/AddressSanitizer.cpp:1670`: forcing the slow path makes the check of an
  access of several granules miss errors (`ForcedSlowPathIsExact`, `ForcedSlowPathMisses`).
- `src/instrumentation/MemorySanitizer.cpp:4733-4739`: a floating-point vector wider than its
  16-byte slot can have its shadow overwritten by the next argument (`WideVectorIsOverwritten`);
  `FoundIffSeparated` says for which lists of argument sizes that happens.
- `src/instrumentation/UbsanInstTagging.cpp:129-131`: with a cycle of inserted instructions that rests
  on no boundary instruction, not even the branch is marked (`CycleMarksNothing`).

## Model

| member | source | states |
|---|---|---|
| SimpleLoop.LapMeetsDominator | src/instrumentation/Instrumentation.cpp:1152-1157 | A walk once round the loop, from the header to a block, meets every loop block that dominates that block. |
| SimpleLoop.LastLapSkips | src/instrumentation/Instrumentation.cpp:1397-1399 | An access that dominates the latch but not the exiting block does not run in the lap that leaves. |
| SimpleLoop.CompleteLaps | src/instrumentation/Instrumentation.cpp:1152-1157 | While the loop goes round, such an access runs exactly once in every iteration. |
| SimpleLoop.ExecutionsAreCounted | src/instrumentation/Instrumentation.cpp:1397-1399 | On every stay in a simple loop an access that dominates the latch and lies in no inner loop runs once in each of iterations 0..n-1 and no other, n being the back edges taken, plus one if it dominates the exiting block. |
| SimpleLoop.LoopTester.IsSimpleLoop | src/instrumentation/Instrumentation.cpp:1221-1262 | The cached test says yes exactly for loops of the graph with the simple shape in which every instruction is passed over, does not write, is a debug intrinsic, or is neither a call nor atomic; the caches stay right. |
| SimpleLoop.SimpleInPlainTerms | src/instrumentation/Instrumentation.cpp:1229-1259 | In terms of edges and instruction flags: accepted if and only if one block outside and one inside (by a single edge) lead to the header, all edges out share source and target, and no call or atomic instruction writes unless it is passed over or a debug intrinsic. |
| SimpleLoop.AcceptedIsSimple | src/instrumentation/Instrumentation.cpp:1229-1240 | A natural loop that the test accepts has the shape the counting theorem asks for, with the latch and the exiting block found in the graph. |
| LoopCounter.IsLoopCountingPhi | src/instrumentation/Instrumentation.cpp:666-710 | A phi is accepted exactly if it is wide enough and has the pattern (0 or 1 from the predecessor, itself plus one from the latch) in either order; the base is reported. |
| LoopCounter.CountingPatternSpelled | src/instrumentation/Instrumentation.cpp:684-709 | The pattern written out: 0 or 1 from the predecessor and the phi plus one, in either operand order, from the latch, in either order of edges. |
| LoopCounter.RecognisedPhiCounts | src/instrumentation/Instrumentation.cpp:684-709 | Whatever values an accepted phi takes from its incoming edges along a stay in the loop, they are base plus back edges, modulo 2^w. |
| LoopCounter.RecognisedPhiHasValues | src/instrumentation/Instrumentation.cpp:684-709 | On every stay in the loop an accepted phi has values that its incoming edges allow. |
| LoopCounter.GetOrInsertLoopCounter | src/instrumentation/Instrumentation.cpp:718-800 | Takes the first acceptable phi, corrected so that it starts at one exactly for accesses before the exit test; inserts a counter only if there is none; gives up unless the header has two predecessors. |
| LoopCounter.PhiCounts | src/instrumentation/Instrumentation.cpp:784-795 | A wrapping header phi is base plus back edges modulo 2^w, a saturating one the smaller of that sum and 2^w - 1. |
| LoopCounter.TripCountIsExact | src/instrumentation/Instrumentation.cpp:909-938 | The trip-count expression is min(executions, 2^target) if and only if the executions are fewer than 2^pointer width. |
| LoopCounter.ReusedPhiIsExact | src/instrumentation/Instrumentation.cpp:751-765 | A reused phi gives min(executions, 2^target) if and only if its correction keeps its no-wrap flags and it does not wrap, or wraps to a value the cap hides. |
| LoopCounter.HalfwayIsPoison | src/instrumentation/Instrumentation.cpp:755-758 | The correction of a zero-based w-bit counter is poison at 2^(w-1) executions. |
| LoopCounter.InsertedPhiIsExact | src/instrumentation/Instrumentation.cpp:781-795 | The inserted counter is min(executions, 2^w - 1): never too large, right if and only if there are fewer than 2^w executions. |
| LoopCounter.SourcesAgree | src/instrumentation/Instrumentation.cpp:909-958 | With fewer than 2^target executions all three sources give the number of executions, but for the exact counts at which a reused phi's correction is poison. |
| CombinedCheck.RangeCheck | src/runtime/lib/xsan/xsan_interface.cpp:53-74 | The range callback probes exactly [beg, end). |
| CombinedCheck.PeriodCheck | src/runtime/lib/xsan/xsan_interface.cpp:77-97 | Given the bounds of n accesses, the periodic callback probes exactly their bytes for a step of either sign, and nothing for step zero. |
| CombinedCheck.EmittedCheck | src/instrumentation/Instrumentation.cpp:885-967 | With the negative-step shift and swap and the choice of form, the emitted check probes exactly the bytes of `count` executions, zero included, for every nonzero step, and nothing for a step of zero. |
| CombinedCheck.WordsAreBounds | src/instrumentation/Instrumentation.cpp:885-967 | Computed in words of p bits, the bounds of the check are the true ones if and only if both lie in the address space. |
| CombinedCheck.EmittedWordCheck | src/instrumentation/Instrumentation.cpp:885-967 | The same with the bounds computed in words, when they lie in the address space. |
| CombinedCheck.TouchedIsAccessed | src/instrumentation/Instrumentation.cpp:1372-1441 | The bytes an access touches during a stay in a simple loop are those of as many executions as the pass counts. |
| CombinedCheck.FewerExecutionsCoverLess | src/instrumentation/Instrumentation.cpp:940-942 | A count that is too small always loses a byte. |
| CombinedCheck.InsertedCounterCovers | src/instrumentation/Instrumentation.cpp:946-959 | For an address that never repeats, the check with the inserted counter covers only touched bytes, and all of them if and only if there were fewer than 2^w executions. |
| AddRecRewrite.ModuloProduct | src/instrumentation/Instrumentation.cpp:160-205 | Modulo 2^v the rebuilt product is right exactly when the multiplier makes the wraps of the inner recurrence invisible. |
| AddRecRewrite.RewriteIsExact | src/instrumentation/Instrumentation.cpp:97-205 | For every width, cast, start, step and multiplier, the rebuilt recurrence gives the program's first n addresses if and only if the inner recurrence does not wrap there (or its wraps are invisible) and, under a real zero extension, the product stays in its width. |
| AddRecRewrite.CycleIsOneRound | src/instrumentation/Instrumentation.cpp:930-938 | However often the loop goes round, the program's addresses are those of the first min(n, 2^w) iterations. |
| AddRecRewrite.CyclicIsExact | src/instrumentation/Instrumentation.cpp:1333-1346 | For every start, step, cast and multiplier: over min(n, 2^w) iterations the rebuilt recurrence has exactly the program's addresses if and only if the counter, read as EXT2 reads it, does not leave its range (or the multiplier hides that) and the product stays in its width under a real zero extension. |
| AddRecRewrite.PrefixIsExact | src/instrumentation/Instrumentation.cpp:921-938 | For any count c of at most one round: the first c iterations of the rebuilt recurrence have exactly the addresses of the program's n iterations if and only if the rewriting is exact that far and c covers the round or a return to the first address. |
| AddRecRewrite.ReturnsAnywhere | src/instrumentation/Instrumentation.cpp:97-116 | Whether an address comes again after d iterations does not depend on where one starts. |
| AddRecRewrite.CyclicStepOne | src/instrumentation/Instrumentation.cpp:1333-1346 | A zero-based access with step one, not sign-extended, may wrap as often as it likes; only a real zero extension of the product asks for anything. |
| AddRecRewrite.CyclicStepOneSigned | src/instrumentation/Instrumentation.cpp:258-268 | Sign-extended, such an access is right only for up to 2^(w-1) executions, unless the multiplier hides the wrap. |
| AddRecRewrite.CyclicStepFourFails | src/instrumentation/Instrumentation.cpp:1338-1341 | An access the pass accepts as cyclic, with step four, for which that fails: within 2^w iterations the rebuilt recurrence reaches an address the program never uses. |
| AddRecRewrite.CountDownFails | src/instrumentation/Instrumentation.cpp:1338-1341 | The same for an accepted access that counts down from zero: the rebuilt step is 255 instead of -1. |
| AddRecRewrite.SignedIndexFails | src/instrumentation/Instrumentation.cpp:258-268 | An accepted sign-extended index that counts up from zero and whose rebuilt recurrence reaches an address the program never uses. |
| RewrittenCheck.CountMatches | src/instrumentation/Instrumentation.cpp:909-958 | On every stay in a simple loop, for a count from any source: the rebuilt recurrence has exactly the addresses the access met if and only if the rewriting is exact that far and the executions left out meet no new address. |
| RewrittenCheck.TripCountMatches | src/instrumentation/Instrumentation.cpp:921-938 | The same for the count from the trip count, which leaves nothing out for fewer than 2^pointer width executions. |
| RewrittenCheck.ReusedPhiMatches | src/instrumentation/Instrumentation.cpp:751-765 | The same for the count from a phi of the program, wrapping or not, unless it is poison; with the exact executions at which it is. |
| RewrittenCheck.InsertedPhiMatches | src/instrumentation/Instrumentation.cpp:784-795 | For every accepted access: with the inserted counter the check matches if and only if the rewriting is exact that far and there were fewer than 2^w executions, or the step is even, or half a round does not move the address. |
| RewrittenCheck.EmitRewrittenCheck | src/instrumentation/Instrumentation.cpp:1417-1441 | For a matching count the emitted check, bounds in words, probes exactly the bytes the program touched, unless the step is zero at run time, when it probes nothing. |
| RewrittenCheck.ZeroStepTouches | src/runtime/lib/xsan/xsan_interface.cpp:77-82 | An accepted access with such a step, a matching count and a byte touched. |
| MopFilter.LoopMopInstrumenter.FilterAndAddMops | src/instrumentation/Instrumentation.cpp:1186-1219 | The backward walk with its address index appends, in program order, the last operation for each address with the earlier ones as its duplicates. |
| MopFilter.AccessesAreConserved | src/instrumentation/Instrumentation.cpp:1199-1218 | In the output each operation occurs exactly once, with its address: either kept or listed by one kept operation, not both. |
| MopFilter.DupsAreDistinct | src/instrumentation/Instrumentation.cpp:1204-1207 | No kept operation lists an instruction twice. |
| MopFilter.NothingInvented | src/instrumentation/Instrumentation.cpp:1201-1218 | What is kept or listed was there, at that address. |
| MopFilter.KeptAddressesDiffer | src/instrumentation/Instrumentation.cpp:1216-1218 | Kept operations have different addresses and stay in program order. |
| MopFilter.KeptChecksSubsume | src/instrumentation/Instrumentation.cpp:1178-1219 | In the filter's output every kept check subsumes those of the instructions it lists if and only if, for each address, the last access is the widest, and a write if any is. |
| MopFilter.PlainBlockIsSound | src/instrumentation/Instrumentation.cpp:1198-1200 | With one size for each address and no read after a write to it, the output loses no error. |
| MopFilter.WiderReadIsLost | src/instrumentation/Instrumentation.cpp:1201-1208 | An 8-byte read before a 4-byte write to its address loses its upper half. |
| CoveragePruning.FullDominatorsAreRecovered | src/instrumentation/SanitizerCoverage.cpp:510-518 | On every complete run a block ran if and only if a block ran that is no full dominator and is found from it through full dominators. |
| CoveragePruning.FullPostDominatorsAreRecovered | src/instrumentation/SanitizerCoverage.cpp:520-529 | The same against the edges: a pruned full post-dominator ran if and only if an unpruned block behind it ran. |
| CoveragePruning.CoverageRecovered | src/instrumentation/SanitizerCoverage.cpp:531-559 | With both rules a block is still known from the callbacks if all its chains in one direction end in blocks with a callback. |
| CoveragePruning.WhatIsInstrumented | src/instrumentation/SanitizerCoverage.cpp:531-559 | Which blocks carry a callback, option by option, in terms of edges and paths. |
| CoveragePruning.DiamondKeepsItsArms | src/instrumentation/SanitizerCoverage.cpp:555-558 | In a diamond the entry and both arms carry callbacks, and the join does not. |
| CoveragePruning.CoverageIsComplete | src/instrumentation/SanitizerCoverage.cpp:531-559 | Where no block pruned by the second rule is entered from one the first rule can prune without being such a block itself, two complete runs with the same callbacks ran the same blocks, both rules in force. |
| CoveragePruning.EdgeCoverageIsComplete | src/instrumentation/SanitizerCoverage.cpp:622-640 | That holds if critical edges are split and every predecessor is reachable. |
| CoveragePruning.TogetherTheRulesLoseCoverage | src/instrumentation/SanitizerCoverage.cpp:555-558 | In block coverage: a graph and two complete runs with the same callbacks that run different blocks. |
| CoveragePruning.UnreachablePredecessorLosesCoverage | src/instrumentation/SanitizerCoverage.cpp:555-558 | The same in edge coverage, without critical edges, when unreachable blocks enter the exits. |
| CoveragePruning.LandingPadLosesCoverage | src/instrumentation/SanitizerCoverage.cpp:622-640 | The same in edge coverage with every block reachable, when only edges into landing pads are critical. |
| CompareShadow.EqualityIsExact | src/instrumentation/MemorySanitizer.cpp:2544-2580 | At every width, an equality is marked if and only if two fillings of the poisoned bits decide it differently. |
| Bits.ComparisonsAreOfValues | src/instrumentation/MemorySanitizer.cpp:2682-2709 | The ten comparisons that the formulas speak about: equality of bits is that of the values, read either way, and the orders are those of the values. |
| CompareShadow.BoundsAreTight | src/instrumentation/MemorySanitizer.cpp:2582-2614 | The lowest and highest possible values are fillings and bound all fillings, signed and unsigned. |
| CompareShadow.RelationalIsExact | src/instrumentation/MemorySanitizer.cpp:2616-2647 | An order comparison is marked if and only if two fillings decide it differently. |
| ShadowPropagation.SignTestIsSound | src/instrumentation/MemorySanitizer.cpp:2649-2680 | A sign test against a constant with a clean top bit does not depend on the other bits. |
| ShadowPropagation.SignTestIsExact | src/instrumentation/MemorySanitizer.cpp:2649-2680 | A sign test is marked if and only if two fillings decide it differently. |
| ShadowPropagation.CompareIsSound | src/instrumentation/MemorySanitizer.cpp:2682-2709 | Whichever treatment is chosen for a comparison, a clean shadow means that no filling changes it. |
| ShadowPropagation.PropagationIsSound | src/instrumentation/MemorySanitizer.cpp:2219-2740 | For every expression over and, or, xor, shifts, casts, comparisons and selects, changing poisoned input bits changes no result bit with a clean shadow. |
| ShadowPropagation.BitwiseIsExact | src/instrumentation/MemorySanitizer.cpp:2276-2318 | A bit of and, or, xor is marked if and only if two fillings of the operands differ in it. |
| ShadowPropagation.SelectIsExact | src/instrumentation/MemorySanitizer.cpp:4261-4293 | A bit of a select is marked if and only if two fillings of condition and arms differ in it. |
| ShadowPropagation.ShiftIsExact | src/instrumentation/MemorySanitizer.cpp:2715-2727 | A bit of a shift by a clean amount is marked if and only if two fillings of the shifted operand differ in it; a poisoned amount marks all bits. |
| ShadowPropagation.CastIsExact | src/instrumentation/MemorySanitizer.cpp:2220-2236 | A bit of a truncation or extension is marked if and only if two fillings differ in it. |
| ShadowPropagation.CompareIsExact | src/instrumentation/MemorySanitizer.cpp:2682-2709 | Which comparisons are exact: with the option on, equalities, sign tests against a constant on either side, unsigned order with a constant, and all if asked for; every other one is marked if and only if some operand bit is. |
| ShadowPropagation.BitwiseNodeIsExact | src/instrumentation/MemorySanitizer.cpp:2276-2318 | In an expression, a bit of and, or, xor is marked if and only if two fillings of the operands by their own shadows differ in it. |
| ShadowPropagation.ShiftNodeIsExact | src/instrumentation/MemorySanitizer.cpp:2715-2731 | The same for a shift by a clean amount; all bits by a poisoned one. |
| ShadowPropagation.CastNodeIsExact | src/instrumentation/MemorySanitizer.cpp:2220-2236 | The same for a cast. |
| ShadowPropagation.SelectNodeIsExact | src/instrumentation/MemorySanitizer.cpp:4261-4293 | The same for a select, its condition included. |
| ShadowPropagation.CompareNodeIsExact | src/instrumentation/MemorySanitizer.cpp:2682-2709 | The same for the comparisons that are treated exactly; any marked operand bit for the others. |
| ShadowPropagation.InitializedIsClean | src/instrumentation/MemorySanitizer.cpp:2219-2740 | Over initialized inputs every expression has a clean shadow, so nothing is reported. |
| ShadowPropagation.ShiftsAreArithmetic | src/instrumentation/MemorySanitizer.cpp:2729-2731 | The shifts that values and shadows share: a product modulo 2^width, and unsigned and signed quotients by powers of two, rounded down. |
| ShadowPropagation.CastsAreArithmetic | src/instrumentation/MemorySanitizer.cpp:2220-2236 | The casts they share: a remainder, and extensions that keep the unsigned or the signed value. |
| ShadowPropagation.ReductionIsExact | src/instrumentation/MemorySanitizer.cpp:3240-3273 | A bit of a vector reduction by or, and is marked if and only if two fillings of the fields differ in it. |
| ParamTls.OverflowIsFinal | src/instrumentation/MemorySanitizer.cpp:4011-4012 | Stopping at the first argument that does not fit skips no later one that does. |
| ParamTls.SlotsAreDisjoint | src/instrumentation/MemorySanitizer.cpp:4058-4059 | The slots of different arguments do not meet. |
| ParamTls.PlacesFollow | src/instrumentation/MemorySanitizer.cpp:4058-4059 | Sized arguments follow each other, each at the next multiple of 8, the first at 0; the others take no room. |
| ParamTls.SeenInPlainTerms | src/instrumentation/MemorySanitizer.cpp:1801-1884 | Field by field: a shadow travels unless it ends behind byte 800, propagation is off, or the value was checked eagerly; a by-value pointer is clean and its memory gets the shadow. |
| ParamTls.HundredWordsTravel | src/instrumentation/MemorySanitizer.cpp:4011-4012 | Of 8-byte values exactly the first hundred travel. |
| ParamTls.ParamArea.StoreArguments | src/instrumentation/MemorySanitizer.cpp:3976-4060 | After the call site every passed shadow is in its slot, and only slots of passed arguments changed. |
| ParamTls.ParamArea.LoadArgument | src/instrumentation/MemorySanitizer.cpp:1801-1884 | The callee, computing the place again, obtains the stored shadow, or a clean one on overflow or eager checking; a by-value pointer is clean and its memory gets the shadow. |
| ParamTls.ParamArea.PassArguments | src/instrumentation/MemorySanitizer.cpp:3976-4060 | Round trip for every argument list and every old content of the area. |
| VarArgs.CursorsStayInAreas | src/instrumentation/MemorySanitizer.cpp:4676-4678 | The three cursors stay in their areas and aligned. |
| VarArgs.SlotsArePlaces | src/instrumentation/MemorySanitizer.cpp:4718-4764 | The slot of an argument in closed form: the j-th integer argument, fixed ones counted, at 8 * j for j < 6; the j-th floating-point one at 48 + 16 * j for j < 8 with SSE; any other at 176 (48 without SSE) plus the rounded sizes of the variadic arguments on the stack before it. |
| VarArgs.SlotsAreDisjoint | src/instrumentation/MemorySanitizer.cpp:4718-4757 | Slots of different variadic arguments do not meet. |
| VarArgs.AllInPlace | src/instrumentation/MemorySanitizer.cpp:4585-4596 | If shadows are separated, after the call site every stored one is in place and the space of one that does not fit is clean. |
| VarArgs.BackupIsExact | src/instrumentation/MemorySanitizer.cpp:4778-4799 | If shadows are separated, the zero-filled copy holds for every variadic argument its full shadow, or a clean one if it does not fit. |
| VarArgs.FoundIffSeparated | src/instrumentation/MemorySanitizer.cpp:4675-4799 | Whatever the contents of shadows and memory, every variadic argument is found whole, or clean if it does not fit, if and only if no stored shadow meets that of another variadic argument at their real sizes and none ends behind the area or the copy. |
| VarArgs.FittingRegistersAreSeparated | src/instrumentation/MemorySanitizer.cpp:4720-4739 | Arguments that fit their register slots are separated. |
| VarArgs.VaArgHelper.VisitCallBase | src/instrumentation/MemorySanitizer.cpp:4675-4776 | For every argument list the loop with its three cursors leaves memory and the overflow size as specified argument by argument. |
| VarArgs.VaArgHelper.PassVarArgs | src/instrumentation/MemorySanitizer.cpp:4675-4806 | Call site and function entry together: the whole memory and the copy, and, if shadows are separated, each variadic argument's shadow at the place the calling convention gives it, or clean there if it lies on the stack and ends behind byte 800. |
| VarArgs.WideVectorIsOverwritten | src/instrumentation/MemorySanitizer.cpp:4733-4739 | A 32-byte vector in a 16-byte slot loses half its shadow to the next argument. |
| VarArgs.LoneWideVectorIsFound | src/instrumentation/MemorySanitizer.cpp:4733-4739 | The same vector alone is always found whole. |
| ShadowWriter.StoreRoundTrip | src/instrumentation/AddressSanitizer.cpp:2919-2931 | Storing the packed number writes the bytes it was packed from, in both byte orders. |
| ShadowWriter.StoreSize | src/instrumentation/AddressSanitizer.cpp:2908-2917 | The nested trimming loops end; the size is a power of two that fits, drops only zero mask bytes, and cannot be halved further without dropping another. |
| ShadowWriter.ShadowMemory.CopyInline | src/instrumentation/AddressSanitizer.cpp:2884-2935 | The wide stores leave the bytes in [begin, end) and touch nothing else. |
| ShadowWriter.ShadowMemory.CopyToShadow | src/instrumentation/AddressSanitizer.cpp:2943-2972 | For any threshold, store width and byte order, stores and runtime calls together equal the byte loop. |
| StackFrame.StackMallocSizeClass | src/instrumentation/AddressSanitizer.cpp:2974-2982 | The least class whose size 64 * 2^i holds the frame; at most 10. |
| StackFrame.LastMarkerDecides | src/instrumentation/AddressSanitizer.cpp:3384-3395 | With disjoint variables, a granule's shadow follows the last marker of its own variable. |
| StackFrame.LastCoveringMarker | src/instrumentation/AddressSanitizer.cpp:3384-3395 | For any markers, overlapping ones too, the last to cover a granule decides its shadow; with none the granule is out of scope. |
| StackFrame.MarkerCoversVariable | src/instrumentation/AddressSanitizer.cpp:3388-3389 | The granules computed for a marker are exactly those that hold a byte of its variable. |
| StackFrame.LeftFramesToChecks | src/instrumentation/AddressSanitizer.cpp:3425-3449 | To the emitted check no byte of a fake frame that was left is accessible, and every byte of a frame left on the real stack is. |
| StackFrame.Frame.Mark | src/instrumentation/AddressSanitizer.cpp:3385-3395 | A lifetime marker keeps the frame's shadow equal to what the markers so far say, and nothing else changes. |
| StackFrame.Frame.LeaveFakeStack | src/instrumentation/AddressSanitizer.cpp:3425-3430 | On return from a small fake frame every granule of the class is poisoned, the frame's included. |
| StackFrame.Frame.Activation | src/instrumentation/AddressSanitizer.cpp:3375-3451 | For every sequence of markers: after each of them every granule of the frame is as the last marker covering it says, and after return on a real stack all shadow, the frame's zeros included, is as before. |
| StackFrame.GranulesOfClass | src/instrumentation/AddressSanitizer.cpp:3426-3428 | The chosen class has at least as many granules as the frame. |
| AccessCheck.CheckIsExact | src/instrumentation/AddressSanitizer.cpp:1658-1694 | At a suitable alignment the load of one shadow value and its comparison report if and only if some accessed byte is not addressable. |
| AccessCheck.ForcedSlowPathIsExact | src/instrumentation/AddressSanitizer.cpp:1670-1682 | With the slow path forced, the check of an access of whole granules is right if and only if the shadow value it loads is, as a signed number, below the size of the access. |
| AccessCheck.ForcedSlowPathMisses | src/instrumentation/AddressSanitizer.cpp:1670-1682 | For 16 bytes: right if and only if the second granule is not partly accessible, and not wholly accessible behind a poisoned first one. |
| AccessCheck.AlignedAccessIsExact | src/instrumentation/AddressSanitizer.cpp:1447-1453 | An access of 1, 2, 4, 8 or 16 bytes at an alignment of at least a granule or its own size is reported if and only if some byte of it is not addressable; where no alignment is given, if it is as aligned as its size. |
| AccessCheck.OtherAccessChecksEnds | src/instrumentation/AddressSanitizer.cpp:1447-1456 | With any other size or a smaller alignment an access is reported if and only if its first or last byte is not addressable. |
| AccessCheck.FallbackIsExact | src/instrumentation/AddressSanitizer.cpp:1703-1727 | Checking the first and last byte never reports falsely, and is exact if any two accessible bytes less than size apart, but not next to each other, have an accessible one between them. |
| AccessCheck.FallbackMissesShortGap | src/instrumentation/AddressSanitizer.cpp:1703-1706 | That bound is tight: any shorter run can hide in an access. |
| ShadowLayout.UserBitsAreLow | utils/gen_mapping_via_z3.py:421-436 | Masking an application address leaves its place in its block, rounded down to eight. |
| ShadowLayout.CellInside | utils/gen_mapping_via_z3.py:784-793 | Constraints on end points imply it pointwise: the shadow of every application byte, of all four kinds, lies in its listed region. |
| ShadowLayout.CellMeetsNothingElse | utils/gen_mapping_via_z3.py:719-793 | Such a cell meets no application byte, no ASan shadow and no cell of another region. |
| ShadowLayout.CellsAreDistinct | utils/gen_mapping_via_z3.py:338-442 | Different application bytes have different MSan bytes, and TSan cells are shared only within eight bytes. |
| ShadowLayout.AsanCellInside | utils/gen_mapping_via_z3.py:267-298 | ASan's shadow of an address lies in its two listed regions if and only if the address is before ASan's shadow or behind it. |
| ShippedLayout.ListedIsComputed | src/include/platforms/xsan_platform_x64_48.h:22-52 | The regions listed in each of the two shipped headers (x86-64 and AArch64) are those the mappings give for its parameters. |
| ShippedLayout.ShippedLayoutIsASolution | src/include/platforms/xsan_platform_aarch64_48.h:66-94 | The shipped parameters of both platforms meet all the constraints and the assumptions of the layout theorems. |
| ShippedLayout.AsanShadowIsListed | src/include/platforms/xsan_platform_x64_48.h:54-83 | On both platforms ASan's shadow of every application byte it knows of lies in its listed regions. |
| UbsanTagging.WalkIsExact | src/instrumentation/UbsanInstTagging.cpp:16-72 | A finished walk has visited exactly its starting points and what the accepted instructions lead to. |
| UbsanTagging.Tagger.WalkOverUseDefChain | src/instrumentation/UbsanInstTagging.cpp:45-101 | On any graph the backward walk ends, acts once on each instruction it must look at, and collects, once each, exactly the accepted ones without inserted operand. |
| UbsanTagging.Tagger.WalkOverDefUseChain | src/instrumentation/UbsanInstTagging.cpp:16-42 | The forward walk ends, acts once each, and marks exactly the inserted instructions reached from the boundary through inserted ones. |
| UbsanTagging.Tagger.Run | src/instrumentation/UbsanInstTagging.cpp:76-137 | The pass marks exactly the instructions of fallback blocks and of the checks guarding them. |
| UbsanTagging.MarkedInPlainTerms | src/instrumentation/UbsanInstTagging.cpp:111-133 | In terms of operands: the instructions of a block with one edge in, an inserted terminator and an inserted report, and those that rest on the same inserted instruction without inserted operand as the inserted branch before it. |
| UbsanTagging.CheckedAdditionIsMarked | src/instrumentation/Utils/UbsanUtils.cpp:53-68 | Of the documented checked addition the pass marks the addition, both its uses, the branch and the report, and not the use of the sum. |
| UbsanTagging.AcceptedIsMarked | src/instrumentation/UbsanInstTagging.cpp:128-131 | An instruction accepted on the way back is marked on the way forth if and only if it rests on a boundary instruction. |
| UbsanTagging.AcyclicMarksAll | src/instrumentation/UbsanInstTagging.cpp:128-131 | Without a cycle of inserted instructions everything accepted backward, the branch included, is marked. |
| UbsanTagging.OnlyInsertedOutside | src/instrumentation/UbsanInstTagging.cpp:103-109 | Outside fallback blocks only inserted instructions are ever marked. |
| UbsanTagging.CycleMarksNothing | src/instrumentation/UbsanInstTagging.cpp:90-100 | With a cycle not even the branch may be. |
| AccessSelection.Collector.ChooseInstructionsToInstrument | src/instrumentation/ThreadSanitizer.cpp:451-506 | For a call-free stretch the reverse loop, with valid indices throughout, adds exactly the accesses that must be checked, flagged if they cover a load, and keeps what was there before. |
| AccessSelection.Collector.CollectTargetsToInstrument | src/instrumentation/ThreadSanitizer.cpp:995-1032 | Over the whole function each access that must be checked is chosen once, with its flag, stretch by stretch. |
| AccessSelection.DroppedForAReason | src/instrumentation/ThreadSanitizer.cpp:461-506 | In terms of the instructions: a load or store is left out if and only if its address is not instrumentable, not shared, or constant data for a load, or the next store to the address of a load, in its block and with no call between, is checked and flagged for it. |
| AccessSelection.CheckedOnce | src/instrumentation/ThreadSanitizer.cpp:1009-1032 | Only loads and stores are checked, none of them twice. |
| AccessSelection.FlaggedForALoad | src/instrumentation/ThreadSanitizer.cpp:461-480 | A check is flagged if and only if it is that of the next store to the address of some load, with no call between, that may be left to it. |
| AccessSelection.CallKeepsTheLoad | src/instrumentation/ThreadSanitizer.cpp:1020-1028 | A call between a load and the next store to its address keeps the load's own check. |
| AccessSelection.OthersDoNotKeepIt | src/instrumentation/ThreadSanitizer.cpp:1009-1028 | Atomics, passed-over and other instructions between them do not. |
| AccessSelection.SelectionIsUnique | src/instrumentation/ThreadSanitizer.cpp:1009-1032 | The specification of the collection leaves no choice: accesses, flags and order are determined. |
| AccessSelection.WidthsAreKept | src/instrumentation/ThreadSanitizer.cpp:463-480 | Every access that could race has in its own stretch a checked access to its address at least as wide, if and only if beside each load covered by a store there is such an access that is a store or an uncovered load. |
| AccessSelection.WiderLoadIsDropped | src/instrumentation/ThreadSanitizer.cpp:463-480 | For an 8-byte load before a 4-byte store to its address only the store is chosen, and the load's upper half goes unchecked. |

## Left out

- CoverageRecovered: one direction only, as is `CoverageIsComplete`: they give conditions on the graph; whether the callbacks happen to tell all runs apart without them depends on pairs of runs.
- EdgeCoverageIsComplete: for functions whose critical edges can all be split; LLVM leaves those out of indirect branches and into landing pads, where `CoverageIsComplete` applies.
- EmittedCheck: addresses are unbounded integers; `EmittedWordCheck` covers the words of the emitted code as long as both bounds lie in the address space.
- InsertedCounterCovers: for addresses that never repeat; `InsertedPhiMatches` is the statement for those that do.
- VisitCallBase: memory behind the area is modelled as far as a register argument's shadow reaches, not what lives there.
- Activation: size classes above 4 are freed by the runtime, whose effect on the shadow is not part of this model.
- PropagationIsSound: shift amounts of the width or more shift everything out; in LLVM they give poison.
- BoundsAreTight: at width 1 the signed bounds use a shift by the full width, which LLVM leaves undefined; the model shifts everything out.
- CellInside: regions are assumed to be shorter than a block of 2^44 bytes, which is weaker than crossing no block.
- PassArguments: caller and callee are assumed to agree on eager checking; the caller turns it off for functions of the `__sanitizer_unaligned_` family.
- AcceptedIsSimple: that a loop is natural (entered through its header, its blocks reach a latch) is LLVM's loop analysis and a premise here.
- Scalar evolution, dominator trees, memory SSA updates, critical-edge splitting and debug locations: LLVM's code.
- Argument offsets and sizes are unbounded: the wrap-around of the 32-bit `unsigned` they are kept in is not covered.
- `combinePeriodicChecks` for an access in a loop nested inside the loop of its recurrence.
- `relocateInvariantChecks`, and `collectLoopMopCandidates` apart from the filter it calls.
- MSan: origins, vectors in selects and comparisons, undefined constants, the approximate treatment of addition, subtraction and multiplication, and the variadic helpers of other targets.
- ASan: the check through callbacks, dynamic allocas, frees of large fake frames, and shadow values loaded with big-endian byte order.
- TSan: the lists of atomic accesses and of memory intrinsics that are collected beside the loads and stores.
- The mapping generator's search, optimisation goals and output; ThreadSanitizer's distinguishability constraints, which only restrict the solutions further.
