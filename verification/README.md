# SymCC, modelled and verified

SymCC compiles a program together with symbolic bookkeeping. Beside every
register and every byte of memory of the running program there is a symbolic
expression, or null when the value does not depend on the input. At every
decision of the program the run time pushes a constraint over the input and
asks a solver for an input that decides differently.

One relation holds all of this together: **an expression evaluates, on an
input, to the value that its register or byte has when the program runs on
that input, and a null means that the value does not change.** This project
models the expression builders, the compiler pass, the shadow memory, the
solver protocol and the state machines around them, and proves that relation
and what follows from it, for all programs, runs, inputs, widths and layouts
that the code is defined for.

## How the project is organised

* `BitVectors`, `Bytes`, `Expressions`: modular arithmetic, byte strings, and
  the expression language. `Bits` is the width of an expression, `Eval` its
  meaning on an input (the SMT-LIB theory FixedSizeBitVectors), `WellSorted`
  the solver's sort rules. A Boolean is a one-bit value of a separate sort.
  `OperatorLaws` says what the operators mean bit by bit and in integers.
* `Aggregates`, `Saturation`, `Overflow`: the composite builders of the run
  time. `Holds(e, input, bs)` says that `e` is the big-endian reading of the
  byte string `bs`; extraction, insertion and byte swapping are proved as
  operations on byte strings. `AggregateBuilders` has the original loops.
* `Lifting`, `Programs`, `Replay`, `ReplaySteps`, `ReplayTheorems`,
  `ReplayExamples`: an SSA
  language with integer operations, comparisons, casts, select, phi, load,
  store, memmove, memset, input, calls, branches and switches; its concrete
  execution (`CStep`), the bookkeeping that the inserted calls perform beside
  it (`SStep`), and the relation `Rel` between a recorded run and any other.
  `StepLaws` says for each instruction what is in registers, memory,
  expressions and path after it.
* `ShortCircuit`, `AddressChains`, `CallChains`, `CastChains`, `PushChains`,
  `ValueChains`, `GetElementPtr`: the rewriting that runs a symbolic
  computation only if some input is symbolic, and the chains of calls for
  casts, pushed constraints, aggregate members and addresses.
* `StructLayout` (with `StructBuilders`): constant expressions of structures.
  `MemberAccess` (with `MemberOffsets` and `StructImages`): index paths through
  structures and arrays, and the insertion and extraction of members there.
* `Shadow`, `MemoryOps`, `MemoryLaws`, `Comparisons`: shadow pages as arrays,
  iterators as objects that cache a slot, the loops over them, and the flat
  map (`Flat`) that the pages stand for. `PagedRunTime` connects them to the
  program model: a whole run on pages, starting from none, shows in every
  state the flat bookkeeping that the replay theorems speak about.
* `Solver`, `Offsets`, `SolverRuns`: the solver state with scopes, the input
  bytes that a run's formulas mention, and the solver beside a whole run.
* `DelayQueue`, `ArgumentSlots`, `CallSlots`, `Collector`, `InputVariables`, `InputTracking`:
  the state machines around the core.
* `Coverage`, `Testcases`, `FuzzingLoop`: the fuzzing helper.

`dafny verify dfyconfig.toml` checks everything.

## Where the code decides what is true

Some properties that one would expect do not hold for every argument. For each
there is an exact condition, and a concrete case that fails:

* A replayed run can trap in a division where the recorded run did not,
  because operands of divisions are not constrained. An input that satisfies
  the path condition replays the run exactly when no division of the recorded
  run, with its operands' expressions evaluated on that input, would trap
  (`ReplayTheorems.ReplaySoundness`); a byte that becomes zero as a divisor is
  the case that fails (`ReplayExamples.ZeroDivisorTraps`). A division traps
  when the divisor is zero, or when a signed quotient does not fit.
* The number of bytes that a read delivers is not symbolic. Two runs stay
  related at every step exactly when, besides, every recorded read would
  deliver as many bytes from the other input
  (`ReplayTheorems.ReplayExactlyWhen`), as it does from any input of the same
  length; a shorter input fails (`ReplayExamples.ShorterInputParts`).
* Unsigned multiplication with overflow looks only at the top bit of the
  double-width product. Its flag is right exactly when the product fits or
  reaches that bit (`Overflow.UnsignedMulExactWhen`), and 0x100 * 0x100 in
  sixteen bits is missed (`Overflow.UnsignedMulMissesOverflow`).
* Unsigned saturating shift-left uses the signed overflow test. It is the
  unsigned clamp in exactly the cases of `Saturation.UShlFine`
  (`Saturation.UShlSatExactlyWhen`); 0x40 << 1 saturates in eight bits
  (`Saturation.UShlSatSaturatesEarly`).
* Array indices narrower than a pointer are zero-extended, where the
  instruction sign-extends. The expression stands for the address exactly when
  all operands are concrete or what the negative indices add by mistake
  vanishes modulo 2^64 (`GetElementPtr.AddressAgreesExactlyWhen`);
  non-negative narrow indices suffice (`GetElementPtr.NonNegativeIndices`),
  and an index of -1 fails (`GetElementPtr.NegativeNarrowIndex`).
* A Boolean that has no expression at compile time is not converted to a byte
  before it is inserted into an aggregate. The assertions of the insertion
  hold exactly in the other cases (`ValueChains.InsertAdmittedExactlyWhen`);
  the constant true in a structure of one byte fails
  (`ValueChains.BooleanRejected`).
* Displacements of array elements in a register are computed in 32 bits. The
  offset of a member is right exactly when no array level of its path
  displaces by 4 GiB or more (`MemberAccess.OffsetExactlyWhen`), as in every
  aggregate of at most that size (`MemberAccess.SmallIsNear`); the second of
  two elements of 4 GiB fails (`MemberAccess.FarElement`).
* In big-endian layout, the overflow flag of a result of two bytes and more
  lies in the last byte of the pair, and the member of type i1 is read behind
  the value. It is right exactly when nothing overflowed
  (`Overflow.BigEndianFlagExactlyWhen`).
* Filling memory puts one expression at every byte as it is. Reading back has
  the right width exactly when that expression is a byte
  (`MemoryLaws.FilledExactlyWhen`), as for the intrinsic; the wrapper of the C
  function passes the expression of an int (`MemoryLaws.IntegerFillWidens`).
* A copied test case names six digits of its parent's number. They are all of
  them exactly for numbers below one million (`Testcases.CopyAsParent`).
* Argument slots are selected by one byte. A call hands over its arguments
  exactly when arguments that are 256 apart have equal expressions
  (`ArgumentSlots.HandsOverExactlyWhen`); of 257 arguments the first can get
  lost (`ArgumentSlots.FirstArgumentLost`).
* The simple backend numbers its variables by table size. Names match offsets
  exactly when offsets are first requested without gaps
  (`InputVariables.NamesMatchExactlyWhen`); a first request for offset 1 gets
  the name 0 (`InputVariables.GapMisnames`).
* `fread` counts whole elements. The tracked offset stays right exactly when
  the bytes that were left make up whole elements
  (`InputTracking.InputWrappers.FReadInput`); five bytes in elements of four
  fall behind (`InputTracking.PartialElementFallsBehind`).
* `ungetc` keeps labels right exactly when it returns the byte that was just
  read (`InputTracking.InputWrappers.UngetC`), and not for another one
  (`InputTracking.OtherBytePushedBack`).

Some readings had to be fixed. Unsigned overflow flags compare a one-bit
vector with a Boolean constant; this is read as the truth of the bit. The
identity of expression nodes in the registry is the equality of expressions.

## Model

| member | source | states |
|---|---|---|
| Expressions.EvalRange | runtime/simple_backend/Runtime.cpp:207-244 | every well-sorted expression denotes a bit vector of its own width, and Booleans are one bit wide |
| Expressions.BitToBoolNode | runtime/RuntimeCommon.cpp:495-501 | the conversion is well-sorted and true exactly when the vector is not zero |
| Expressions.BoolToBitNode | runtime/simple_backend/Runtime.cpp:427-432 | a Boolean becomes a one-bit vector with the same truth |
| Expressions.ByteToBoolNode | compiler/Symbolizer.cpp:1116-1131 | a byte read from memory becomes the truth of its lowest bit |
| OperatorLaws.ArithmeticLaws | runtime/simple_backend/Runtime.cpp:212-214 | sum, difference and product are right modulo two to the width |
| OperatorLaws.UnsignedDivision | runtime/simple_backend/Runtime.cpp:215-217 | dividend = divisor * quotient + remainder with the remainder below the divisor; by zero all bits are set and the dividend remains |
| OperatorLaws.SignedDivision | runtime/simple_backend/Runtime.cpp:216-218 | the same for signed operands, truncating toward zero: the remainder has the sign of the dividend |
| OperatorLaws.SignedDivisionEdges | runtime/simple_backend/Runtime.cpp:216-218 | signed division by zero, and of the least number by -1 |
| OperatorLaws.LogicalBits | runtime/simple_backend/Runtime.cpp:233-236 | and, or and xor bit by bit |
| OperatorLaws.ShiftBits | runtime/simple_backend/Runtime.cpp:219-221 | every bit of the three shifts, for every shift amount; the arithmetic one repeats the sign |
| OperatorLaws.OrderLaws | runtime/simple_backend/Runtime.cpp:223-231 | equality is equality of all bits; the highest bit that differs decides the unsigned order, the sign first the signed one |
| OperatorLaws.PredicateLaws | runtime/simple_backend/Runtime.cpp:223-231 | the other predicates in terms of equality and the strict orders |
| OperatorLaws.NodeBits | runtime/simple_backend/Runtime.cpp:361-371 | every bit of an extension and of the helpers for extraction and concatenation (lines 492-499) |
| OperatorLaws.BooleanNodes | runtime/simple_backend/Runtime.cpp:282-294 | the Boolean builders are the connectives |
| OperatorLaws.OneBitLogic | compiler/Symbolizer.cpp:393-423 | on i1 the Boolean operators are the logical operators of one bit |
| OperatorLaws.CastLaws | compiler/Symbolizer.cpp:771-818 | extensions keep the unsigned or the signed value, truncation the low bits |
| Aggregates.ConcatHolds | runtime/RuntimeCommon.cpp:206-227 | concatenating two expressions concatenates the byte strings that they hold |
| Aggregates.SliceHolds | runtime/RuntimeCommon.cpp:206-227 | bit extraction at byte boundaries is taking a slice of the byte string |
| Aggregates.ExtractHolds | runtime/RuntimeCommon.cpp:206-227 | extraction in either byte order gives exactly the bytes at the offset, reversed if little-endian |
| Aggregates.BswapHolds | runtime/RuntimeCommon.cpp:229-233 | for widths that are multiples of 16 bits, bswap reverses the byte string |
| Aggregates.BswapInvolution | runtime/RuntimeCommon.cpp:229-233 | swapping twice gives back the value, and width is conserved |
| Aggregates.InsertHolds | runtime/RuntimeCommon.cpp:235-265 | insertion replaces exactly the bytes at the offset, in the byte order of the piece, including at both ends |
| Aggregates.InsertThenExtract | runtime/RuntimeCommon.cpp:235-265 | extracting at the place of an insertion returns the inserted value, and total width is conserved |
| Aggregates.InsertKeepsDisjoint | runtime/RuntimeCommon.cpp:235-265 | an insertion does not change what is extracted from a disjoint byte range |
| Aggregates.ZeroBytesHolds | runtime/RuntimeCommon.cpp:267-276 | the padding expression holds that many zero bytes |
| AggregateBuilders.BuildExtract | runtime/RuntimeCommon.cpp:206-227 | the loop over an accumulator builds the extraction whose meaning ExtractHolds gives |
| AggregateBuilders.BuildBswap | runtime/RuntimeCommon.cpp:229-233 | bswap built by the extraction loop |
| AggregateBuilders.BuildInsert | runtime/RuntimeCommon.cpp:235-265 | the piecewise construction with its optional parts is the insertion whose meaning InsertHolds gives |
| AggregateBuilders.BuildZeroBytes | runtime/RuntimeCommon.cpp:267-276 | the loop builds the padding expression |
| Saturation.LimitValues | runtime/RuntimeCommon.cpp:40-52 | for widths below 64 the limit literals are the extreme values of their kind |
| Saturation.ClampNearest | runtime/RuntimeCommon.cpp:278-297 | the clamp is within the limits, and no number within them is nearer to the true result |
| Saturation.SAddSatCorrect | runtime/RuntimeCommon.cpp:278-297 | signed saturating addition clamps the true integer sum, for all operands |
| Saturation.SSubSatCorrect | runtime/RuntimeCommon.cpp:314-334 | signed saturating subtraction clamps the true integer difference, for all operands |
| Saturation.UAddSatCorrect | runtime/RuntimeCommon.cpp:299-312 | unsigned saturating addition clamps the true integer result |
| Saturation.USubSatCorrect | runtime/RuntimeCommon.cpp:336-346 | unsigned saturating subtraction clamps the true integer result, at every width |
| Saturation.ShiftOverflowTest | runtime/RuntimeCommon.cpp:348-351 | shifting back misses the original exactly when the true signed product does not fit, for every shift amount including those at or above the width |
| Saturation.SShlSatCorrect | runtime/RuntimeCommon.cpp:353-368 | signed saturating shift-left clamps the true product, for every shift amount |
| Saturation.UShlSatExactlyWhen | runtime/RuntimeCommon.cpp:370-380 | unsigned saturating shift-left is the unsigned clamp if and only if the shift is zero, or the operand has a clear top bit and the product avoids the band between the signed maximum and the unsigned limit, or it has a set top bit and the signed product overflows |
| Saturation.UShlSatSaturatesEarly | runtime/RuntimeCommon.cpp:370-380 | the counterexample 0x40 shifted by one in eight bits |
| Overflow.FlagExact | runtime/RuntimeCommon.cpp:382-447 | the flag is set if and only if the true result does not fit, for signed add, sub, mul and unsigned add, sub |
| Overflow.UnsignedMulFlag | runtime/RuntimeCommon.cpp:437-443 | for unsigned mul the flag is set if and only if the product reaches the top bit of the double width, hence only on real overflow |
| Overflow.UnsignedMulExactWhen | runtime/RuntimeCommon.cpp:437-443 | the unsigned mul flag is exact if and only if the product fits or reaches that bit |
| Overflow.UnsignedMulMissesOverflow | runtime/RuntimeCommon.cpp:437-443 | the counterexample: for 0x100 times 0x100 in sixteen bits the built pair holds the product 0 and a clear flag |
| Overflow.OverflowResultHolds | runtime/RuntimeCommon.cpp:59-83 | the little-endian pair is the swapped result, the flag byte and padding |
| Overflow.OverflowMembers | runtime/RuntimeCommon.cpp:59-83 | extraction at offset 0 and at the size of the result gives back the result and the flag byte |
| Overflow.WithOverflowCorrect | runtime/RuntimeCommon.cpp:382-447 | end to end: the first member is the true result modulo 2^n, the second, truncated to a bit, the overflow flag |
| Overflow.BigEndianMembers | runtime/RuntimeCommon.cpp:59-83 | in big-endian layout the value is read back, the byte behind it is zero, and the flag is the last byte |
| Overflow.BigEndianFlagExactlyWhen | runtime/RuntimeCommon.cpp:76-82 | the flag that is read there is right if and only if nothing overflowed |
| Lifting.ValueExprCorrect | compiler/Symbolizer.cpp:940-981 | the constant for a concrete value has the type of the value and evaluates to it, for Booleans, up to 64 bits, and 128 bits in two halves |
| Lifting.CoerceAgree | compiler/Symbolizer.cpp:138-158 | an expression, or the constant that replaces a null, evaluates to the value of the run on that input |
| Lifting.BinaryAgree | compiler/Symbolizer.cpp:393-423 | the lifted binary operator keeps agreement and typing; on i1 the Boolean operators are used |
| Lifting.CompareAgree | compiler/Symbolizer.cpp:454-464 | the lifted comparison keeps agreement and is a Boolean |
| Lifting.CastAgree | compiler/Symbolizer.cpp:771-818 | the lifted extensions keep agreement, through a bit vector for Booleans |
| Lifting.TruncValue | compiler/Symbolizer.cpp:680-701 | truncation wraps the value, and to one bit gives a Boolean |
| Lifting.JoinHolds | runtime/RuntimeCommon.cpp:158-170 | accumulating byte expressions holds the bytes of memory in the requested order |
| Lifting.SplitAllHolds | runtime/RuntimeCommon.cpp:190-201 | writing splits an expression into the byte strings in the requested order |
| Replay.DecisionsPredict | compiler/Symbolizer.cpp:434-495 | each constraint of a branch, select, switch or made-concrete address is a Boolean that is true on an input exactly when the run on that input decides as recorded, and its flag is the recorded outcome |
| ReplaySteps.LoadAgree | compiler/Symbolizer.cpp:526-540 | a loaded value is its expression evaluated, or unchanged, with symbolic and concrete bytes mixed |
| ReplaySteps.StoreAgree | compiler/Symbolizer.cpp:542-562 | the stored bytes agree with the stored byte expressions, with Booleans widened to a byte |
| ReplaySteps.EffectsMatch | compiler/Symbolizer.cpp:393-562 | the effects of every non-call instruction in the two runs agree |
| ReplaySteps.NextBlockSame | compiler/Symbolizer.cpp:897-924 | equal outcomes of a branch or of all cases of a switch mean the same next block |
| ReplaySteps.TrapForeseen | compiler/Symbolizer.cpp:393-423 | the other run's division traps exactly when the recorded operands, evaluated on its input, say so |
| ReplaySteps.PlainStep | compiler/Symbolizer.cpp:526-562 | an instruction step keeps the relation between the runs, if its division is foreseen not to trap and its read delivers as many bytes |
| ReplaySteps.JumpStep | compiler/Symbolizer.cpp:820-837 | a jump keeps the relation, with all phis of the block assigned from the edge at once |
| ReplaySteps.CallStep | compiler/Symbolizer.cpp:357-391 | a call keeps the relation, with arguments passed through the slots |
| ReplaySteps.ReturnStep | compiler/Symbolizer.cpp:466-479 | a return keeps the relation, with the result passed through the return slot |
| StepLaws.RunLaw | runtime/RuntimeCommon.cpp:33-37 | a run starts with nothing in registers, slots, shadow memory and path, and changes step by step until it ends |
| StepLaws.WidthLaw | compiler/Symbolizer.cpp:943-957 | registers and constants have their declared widths |
| StepLaws.OperandLaw | compiler/Symbolizer.h:208-219 | an assigned register reads back with its value and expression; constants have no expression |
| StepLaws.FixedMeans | compiler/Symbolizer.cpp:1078-1091 | the constraint of a made-concrete operand is satisfied by exactly the inputs on which it has its recorded value |
| StepLaws.BinaryLaw | compiler/Symbolizer.cpp:393-423 | a binary instruction traps, or leaves the operator's value for the operands in order, and an expression unless both are null; nothing else changes and nothing is pushed |
| StepLaws.CompareLaw | compiler/Symbolizer.cpp:454-464 | the same for a comparison, with 1 or 0 |
| StepLaws.CastLaw | compiler/Symbolizer.cpp:680-701 | the same for a cast, null exactly if the operand is |
| StepLaws.SelectLaw | compiler/Symbolizer.cpp:434-452 | a non-zero condition takes value and expression of the first operand, zero those of the second; the condition is pushed with its outcome |
| StepLaws.LoadLaw | compiler/Symbolizer.cpp:526-540 | the value has the bytes at the address in memory order, the expression is null exactly if all of them are, and the address is pushed |
| StepLaws.StoreLaw | compiler/Symbolizer.cpp:542-562 | the bytes of the value in memory order at the address, each with an expression exactly if the value has one; nothing elsewhere; the address is pushed |
| StepLaws.MemMoveLaw | compiler/Symbolizer.cpp:219-232 | bytes and expressions of the source as they were; destination, source and length are pushed in this order |
| StepLaws.MemSetLaw | compiler/Symbolizer.cpp:205-218 | the low byte and its expression everywhere; destination and length are pushed |
| StepLaws.ReadLaw | runtime/LibcWrappers.cpp:174-194 | as many bytes as are wanted and left, labelled with their offsets; buffer and length are pushed, the count has no expression |
| StepLaws.EnterLaw | compiler/Symbolizer.cpp:481-511 | a branch goes to its first target exactly if the condition is not zero, a switch (lines 897-924) to its first match or the default; the phis take the operands of the edge, evaluated before any assignment; the condition, or one equation for every case in order, is pushed |
| StepLaws.CallLaw | compiler/Symbolizer.cpp:357-391 | the callee starts with the arguments' values and expressions in its parameters, and nothing in other registers |
| StepLaws.ReturnToLaw | compiler/Symbolizer.cpp:466-479 | the caller goes on behind the call with the returned value and expression |
| StepLaws.ReturnLaw | compiler/Symbolizer.cpp:466-479 | a return from the first function ends the run and leaves its expression |
| StepLaws.TrapsExactlyWhen | compiler/Symbolizer.cpp:393-423 | a division traps if and only if the divisor is zero or the signed quotient is no number of the width |
| ReplayTheorems.PushedObey | compiler/Symbolizer.cpp:1078-1091 | the pushed constraints hold exactly when every decision with an expression comes out as recorded |
| ReplayTheorems.StepRel | compiler/Symbolizer.cpp:393-562 | one step of related states on an input that obeys the constraints: related states again if division and read are fine on that input, a trap if the division is not, and another input position if the read is not |
| ReplayTheorems.ReplaySoundness | compiler/Symbolizer.cpp:393-562 | an input that satisfies the path condition, with recorded reads delivering as many bytes, visits the same control points with every register and byte its expression evaluated, or unchanged, if and only if no recorded division is foreseen to trap on it; otherwise its run has trapped |
| ReplayTheorems.ReplayExactlyWhen | compiler/Symbolizer.cpp:393-562 | for any satisfying input: related at every step if and only if all recorded divisions are fine and all recorded reads deliver as many bytes |
| ReplayTheorems.SameLengthAlike | runtime/LibcWrappers.cpp:174-194 | inputs of the same length deliver as many bytes in every run |
| ReplayExamples.ZeroDivisorTraps | compiler/Symbolizer.cpp:393-423 | the counterexample: a run that divides by an input byte has an empty path condition, and traps on the byte 0 |
| ReplayExamples.ShorterInputParts | runtime/LibcWrappers.cpp:174-194 | the counterexample: a shorter input satisfies the path condition and parts at the first read |
| ReplayTheorems.PathConditionHolds | runtime/simple_backend/Runtime.cpp:481-486 | in every reachable state the path condition holds for the run's own input and every expression evaluates to its concrete value |
| ReplayTheorems.RelMeans | compiler/Symbolizer.cpp:357-391 | the relation read out for one register of any frame and one memory byte |
| ReplayTheorems.Divergence | runtime/simple_backend/Runtime.cpp:463-479 | an input that satisfies everything before a constraint and violates it follows the run up to that step and makes that decision differently, after making all earlier ones alike, if and only if no recorded division before is foreseen to trap on it |
| ReplayTheorems.BranchDiverges | compiler/Symbolizer.cpp:481-495 | at a two-way branch the violating input takes the other successor, unless a division before was foreseen to trap |
| ShortCircuit.ShortCircuitUses | compiler/Symbolizer.cpp:83-177 | the three loops of the pass produce the rewritten computation |
| ShortCircuit.CountInputs | compiler/Symbolizer.cpp:116-120 | counts the inputs that are not null at compile time |
| ShortCircuit.ReplaceOperands | compiler/Symbolizer.cpp:121-161 | each operand is left alone, created, or created if null, as its concreteness and the count require, and is read before it is replaced |
| ShortCircuit.RewrittenArg | compiler/Symbolizer.h:158-160 | replacing operands changes exactly the recorded slots |
| ShortCircuit.OnlyUnknown | compiler/Symbolizer.cpp:127-135 | with a single input of unknown concreteness, the slow path is entered only if that input is symbolic, so skipping its check is safe |
| ShortCircuit.SlotsAgree | compiler/Symbolizer.cpp:121-161 | on the slow path every builder operand is the input's expression or the constant for its value |
| ShortCircuit.NoNullArguments | compiler/Symbolizer.cpp:121-161 | with nulls replaced by constants, no builder in the computation receives a null |
| ShortCircuit.RewriteCorrect | compiler/Symbolizer.cpp:83-177 | for every merged computation the result is null if all inputs are null, and otherwise what the builders make of the inputs with every null replaced by its concrete constant, without a null ever reaching a builder |
| ShortCircuit.BinaryIsLift | compiler/Symbolizer.cpp:393-423 | the rewritten computation of a binary instruction is the lifted operation of the program model |
| ShortCircuit.CompareIsLift | compiler/Symbolizer.cpp:454-464 | the same for a comparison |
| AddressChains.ForceUses | compiler/Symbolizer.cpp:1059-1076 | an appended call records its symbolic arguments and keeps the inputs of the calls before it |
| AddressChains.ForceCoherent | compiler/Symbolizer.h:179-189 | merging an appended call gives a well-formed computation again |
| AddressChains.ForceMeaning | compiler/Symbolizer.cpp:1059-1076 | an appended call applies its builder to its arguments' expressions, and keeps all earlier results |
| CastChains.CastIsLift | compiler/Symbolizer.cpp:680-701 | the one or two calls of a truncation or (lines 771-818) an extension, with Booleans converted in a call of their own, are the lifted cast once rewritten; null in gives null out |
| GetElementPtr.ForceBuildRuntimeCall | compiler/Symbolizer.cpp:1059-1076 | the loops over arguments append the call with its inputs |
| GetElementPtr.VisitGetElementPtr | compiler/Symbolizer.cpp:564-653 | the visitor's loop, with its early exits and skipped zero indices, emits the chain |
| GetElementPtr.ScaleMeaning | compiler/Symbolizer.cpp:622-640 | an index, zero-extended if narrow, contributes its product with the element size |
| GetElementPtr.EmittedMeaning | compiler/Symbolizer.cpp:592-650 | the emitted chain of any number of calls computes base plus unsigned displacement modulo 2^64 |
| GetElementPtr.AddressCorrect | compiler/Symbolizer.cpp:564-653 | the registered expression after rewriting is that address on every input; where it is null, the real address does not depend on the input |
| GetElementPtr.NullExactlyWhen | compiler/Symbolizer.cpp:564-590 | the registered expression is null if and only if the base and all indices that are not zero are concrete at run time |
| GetElementPtr.EachIndexCounts | compiler/Symbolizer.cpp:592-650 | every index contributes its own displacement, wherever it stands |
| GetElementPtr.AddressMoves | compiler/Symbolizer.cpp:592-650 | no indices give the base, and an index larger by one moves the address by the element size |
| GetElementPtr.AddressAgreesExactlyWhen | compiler/Symbolizer.cpp:623-634 | the expression agrees with the instruction's address if and only if all operands are concrete or the excess of the negative indices is a multiple of 2^64 |
| GetElementPtr.NonNegativeIndices | compiler/Symbolizer.cpp:623-634 | the excess vanishes when every narrow index is non-negative |
| GetElementPtr.NegativeNarrowIndex | compiler/Symbolizer.cpp:623-634 | the counterexample: a 32-bit index of -1 with a symbolic pointer |
| StructLayout.EncodeHolds | compiler/Symbolizer.cpp:982-1053 | the expression of a structure holds its memory image: members in their byte order at their offsets, zero padding between and after |
| StructLayout.EncodedWidth | compiler/Symbolizer.cpp:982-1053 | it is a bit vector 8 times the store size wide |
| StructLayout.MemberImage | compiler/Symbolizer.cpp:1093-1114 | the image at the offset of any index path is the image of that member |
| StructLayout.ExtractMember | compiler/Symbolizer.cpp:875-895 | extracting at the offset of any index path returns exactly that member's value, despite padding and byte swapping |
| StructLayout.PaddingIsZero | compiler/Symbolizer.cpp:1016-1050 | every byte of the image that belongs to no field is zero |
| StructImages.ImageIsStored | compiler/Symbolizer.cpp:1030-1041 | every byte of the scalar at an index path is the one that a store of it leaves at that address |
| StructBuilders.CreateValueExpression | compiler/Symbolizer.cpp:982-1053 | the recursive construction with its padding loop builds that encoding |
| MemberOffsets.AggregateMemberOffset | compiler/Symbolizer.cpp:1093-1114 | the loop over an index path through structures and arrays computes the offset with its 32-bit products, which is the member's offset if and only if none of them wraps |
| MemberAccess.OffsetExactlyWhen | compiler/Symbolizer.cpp:1103-1110 | the computed offset never exceeds that of the member, and equals it if and only if every array level displaces by less than 4 GiB |
| MemberAccess.SmallIsNear | compiler/Symbolizer.cpp:1103-1110 | within an aggregate of at most 4 GiB no array level wraps |
| MemberAccess.FarElement | compiler/Symbolizer.cpp:1103-1110 | the counterexample: the second of two elements of 4 GiB gets the offset of the first |
| MemberAccess.MembersApart | compiler/Symbolizer.cpp:1093-1114 | members at index paths that part at some level occupy disjoint byte ranges |
| MemberAccess.EncodedFills | compiler/Symbolizer.cpp:982-1053 | the constant expression of a structure is an admissible target of insertion and extraction |
| MemberAccess.InsertMember | compiler/Symbolizer.cpp:839-873 | a symbolic or constant piece inserted at an index path is extracted there again, and the aggregate keeps its type |
| MemberAccess.InsertElsewhere | compiler/Symbolizer.cpp:839-873 | insertion at one index path leaves what is extracted at every diverging path unchanged |
| ValueChains.ExtractIsLift | compiler/Symbolizer.cpp:875-895 | the rewritten calls of extractvalue give the member of a symbolic aggregate, with a byte turned into a Boolean for i1, and null for a concrete one |
| ValueChains.InsertIsLift | compiler/Symbolizer.cpp:839-873 | the rewritten calls of insertvalue insert the value, converted to a byte if it is i1, with constants for whichever operand is concrete; null if both are |
| ValueChains.InsertedValue | compiler/Symbolizer.cpp:839-895 | what insertvalue puts into a member, extractvalue takes out, i1 members included |
| ValueChains.InsertAdmittedExactlyWhen | compiler/Symbolizer.cpp:1133-1152 | the assertions of the insertion hold if and only if the value is no i1 without an expression at compile time |
| ValueChains.BooleanRejected | compiler/Symbolizer.cpp:1133-1152 | the counterexample: the constant true inserted into a symbolic structure of one byte |
| PushChains.BranchPushes | compiler/Symbolizer.cpp:434-495 | the rewritten computation of a branch or select pushes exactly the decision of the program model, and nothing for a concrete condition |
| PushChains.AlternativePushes | compiler/Symbolizer.cpp:1078-1091 | the rewritten chain of constant, equation and push pushes exactly that the value is what it was, and nothing for a concrete value |
| CallChains.Finish | compiler/Symbolizer.cpp:83-177 | a chain grown call by call returns, once rewritten, its last result and pushes its constraints, or null and nothing if every input is null |
| ShortCircuit.RewritePushes | compiler/Symbolizer.cpp:83-177 | the rewriting of any computation pushes what its calls push, or nothing if every input is null |
| Shadow.ShadowMemory.GetShadow | runtime/Shadow.h:111-117 | a present slot belongs to a page of the memory and holds the flat entry of the address; without one that entry is null |
| Shadow.ShadowMemory.GetOrCreateShadow | runtime/Shadow.h:166-175 | creating a page changes no entry of the flat map and moves no page |
| Shadow.ReadShadowIterator.constructor | runtime/Shadow.h:63-64 | a new iterator's slot is that of its address, and is null only if the page is missing |
| Shadow.ReadShadowIterator.Get | runtime/Shadow.h:95-100 | yields the flat entry, unless a null slot hides a page created later |
| Shadow.ReadShadowIterator.Increment | runtime/Shadow.h:77-84 | after a step the slot is that of the new address, across pages; a null slot still only stands for a page that was missing |
| Shadow.ReadShadowIterator.Decrement | runtime/Shadow.h:86-93 | the same for a step back |
| Shadow.WriteShadowIterator.constructor | runtime/Shadow.h:143-145 | a new write iterator always has a slot, and changes no entry, even if it is only compared against |
| Shadow.WriteShadowIterator.Set | runtime/Shadow.h:163-163 | writing changes the flat entry of the iterator's address and nothing else |
| Shadow.WriteShadowIterator.Increment | runtime/Shadow.h:147-153 | a step keeps the flat map and reaches the slot of the next address |
| Shadow.WriteShadowIterator.Decrement | runtime/Shadow.h:155-161 | the same for a step back |
| MemoryOps.IsConcrete | runtime/Shadow.h:215-225 | true if and only if every byte in the range is null, including by the one-page fast path |
| MemoryOps.CopyOne | runtime/Shadow.h:77-84 | one step of a copy reads the original entry even through a slot that was null before the copy created its page |
| MemoryOps.CopyForward | runtime/RuntimeCommon.cpp:135-140 | a forward copy is a simultaneous assignment when it does not run into its own source |
| MemoryOps.CopyBackward | runtime/RuntimeCommon.cpp:137-138 | a backward copy is a simultaneous assignment when the destination is not below the source |
| MemoryOps.Fill | runtime/RuntimeCommon.cpp:123-124 | fills exactly the range |
| MemoryOps.MemCpy | runtime/RuntimeCommon.cpp:110-117 | the copy is a simultaneous assignment of shadow entries, also when skipped as concrete |
| MemoryOps.MemMove | runtime/RuntimeCommon.cpp:127-141 | afterwards every destination entry is the old source entry and nothing else changed, for any overlap, direction and page crossing |
| MemoryOps.MemSet | runtime/RuntimeCommon.cpp:119-125 | every entry of the range becomes the value and nothing else changes |
| MemoryOps.StrNCpy | runtime/LibcWrappers.cpp:480-492 | the copied part moves and the rest of the destination becomes concrete |
| MemoryOps.ReadMemory | runtime/RuntimeCommon.cpp:143-171 | the accumulation over non-null iterators is the load of the program model |
| MemoryOps.WriteMemory | runtime/RuntimeCommon.cpp:173-204 | stores the byte expressions of the value, or nulls, and changes nothing else |
| MemoryOps.MakeSymbolic | runtime/RuntimeCommon.cpp:477-484 | the region becomes the input bytes from the offset on |
| MemoryLaws.WriteThenRead | runtime/RuntimeCommon.cpp:143-204 | reading back any sub-range of a written expression yields exactly the matching bits, in either byte order |
| MemoryLaws.ReadMeansMemory | runtime/RuntimeCommon.cpp:152-170 | a read is null if and only if every byte is concrete, and otherwise evaluates to what memory holds in the run on that input |
| MemoryLaws.FilledExactlyWhen | runtime/RuntimeCommon.cpp:119-125 | a filled region reads back with the right width if and only if the fill expression is a byte |
| MemoryLaws.IntegerFillWidens | runtime/LibcWrappers.cpp:418-427 | the counterexample: the C function's int, filled into two bytes, reads back as 64 bits |
| PagedRunTime.MoveIsStore | runtime/RuntimeCommon.cpp:127-141 | moving entries is storing, at the destination, the entries that the source range showed before |
| PagedRunTime.CallReadMemory | compiler/Symbolizer.cpp:526-540 | a load through pages and iterators gives the expression of the program model |
| PagedRunTime.CallWriter | compiler/Symbolizer.cpp:542-562 | after the run-time call of a store, memmove, memset or input, the pages show the shadow memory of the program model, whatever the page layout |
| PagedRunTime.StepPaged | compiler/Symbolizer.cpp:393-562 | one step of the bookkeeping with shadow pages: loads get the expression of the program model and the pages go on showing its shadow memory |
| PagedRunTime.RunPaged | compiler/Symbolizer.cpp:393-562 | a run of any number of steps that starts without pages ends with pages that show exactly the shadow memory of the program model's run, and with its other bookkeeping |
| Comparisons.EqualAllMeans | runtime/LibcWrappers.cpp:540-548 | the built conjunction is a Boolean that is true exactly when the two byte strings are equal |
| Comparisons.ComparisonPredicts | runtime/LibcWrappers.cpp:529-590 | on every input the pushed formula tells whether memcmp or bcmp returns zero there; on the run's own input it is the flag |
| Comparisons.ComparisonHolds | runtime/LibcWrappers.cpp:529-590 | in every reachable state of a run the formula evaluates, on the run's own input, to the flag |
| Comparisons.ComparisonReplays | runtime/LibcWrappers.cpp:529-590 | in every replayed state the formula tells whether the regions of the other run are equal |
| Comparisons.NoFormulaExactlyWhen | runtime/LibcWrappers.cpp:537-538 | there is no formula if and only if every byte of both regions is concrete |
| Comparisons.CompareRegions | runtime/LibcWrappers.cpp:529-590 | no formula if both regions are concrete, otherwise the conjunction over all bytes |
| Comparisons.BuildAllEqual | runtime/LibcWrappers.cpp:540-548 | the loop over two non-null iterators builds the conjunction |
| Solver.SolverState.PushPathConstraint | runtime/simple_backend/Runtime.cpp:434-490 | a non-null constraint is asserted on its taken side, and exactly if it does not simplify to a constant, one query for the other side is made under the old assertions; the recorded run stays feasible |
| Solver.SolverState.TryToSolve | runtime/simple_backend/Runtime.cpp:463-479 | push, assert, check and pop leave the asserted formulas as they were |
| Solver.Sides | runtime/simple_backend/Runtime.cpp:458-464 | the two formulas stand for the two sides of the constraint |
| Solver.PushAll | runtime/simple_backend/Runtime.cpp:434-490 | after a whole path the solver's solutions are exactly the inputs satisfying it, and each logged query asks for an input that agrees up to its position and differs there |
| SolverRuns.PathConditions | runtime/simple_backend/Runtime.cpp:434-441 | every constraint of a run is a well-sorted Boolean |
| Offsets.RunWithin | runtime/RuntimeCommon.cpp:477-484 | in every state of a run, expressions and constraints mention only bytes that the recorded input has |
| Offsets.EvalResized | runtime/simple_backend/Runtime.cpp:183-196 | cutting or padding an input to a length does not change an expression that mentions only bytes below it |
| SolverRuns.FlippedDiverges | runtime/simple_backend/Runtime.cpp:463-479 | an input that satisfies a prefix of the path condition and violates the next constraint makes the program diverge at the step that pushed it, or trap before where that was foreseen |
| SolverRuns.QueryDiscovers | runtime/simple_backend/Runtime.cpp:468-477 | a query is feasible if and only if some input of the recorded length solves it and makes the program turn away from the run |
| SolverRuns.SolveRun | runtime/simple_backend/Runtime.cpp:434-490 | for a whole run: every constraint with an alternative is queried, in order; solutions of the asserted set are the inputs of the path condition and replay the run exactly when divisions are fine, any solution of a query turns away from it, and a query is feasible exactly when such an input of the recorded length exists |
| DelayQueue.EntrySatisfied | runtime/qsym_backend/Runtime.cpp:369-369 | the constraint that an entry pushes holds for the run that recorded it |
| DelayQueue.EntryMeans | runtime/qsym_backend/Runtime.cpp:369-369 | the constraint of an entry holds on exactly the inputs on which its address has the recorded value |
| DelayQueue.ConstraintsMean | runtime/qsym_backend/Runtime.cpp:360-374 | the constraints of several commits hold on exactly the inputs that fix all their addresses |
| DelayQueue.DelayedConstraints.PathFixes | runtime/qsym_backend/Runtime.cpp:360-374 | in every valid state, an input satisfies the pushed constraints if and only if every committed address has its recorded value on it |
| DelayQueue.DelayedConstraints.constructor | runtime/qsym_backend/Runtime.cpp:100-101 | the empty queue satisfies the invariant |
| DelayQueue.DelayedConstraints.InsertSymbolicAddrNode | runtime/qsym_backend/Runtime.cpp:348-358 | an offer is queued if and only if its dependencies are covered by neither the exact set nor a pending entry; all that was ever offered stays covered, pending entries stay distinct |
| DelayQueue.DelayedConstraints.ConstraintVerify | runtime/qsym_backend/Runtime.cpp:360-374 | at most one entry that the branch contains is committed, whichever the map yields, and its constraint pushed, or the call throws at a null address and changes nothing; the exact set is the union of the commits and only grows; an entry commits at most once |
| DelayQueue.DelayedConstraints.IsSymExprExact | runtime/qsym_backend/Runtime.cpp:376-383 | true if and only if the exact set is not empty and every dependency belongs to a committed entry |
| DelayQueue.DelayedConstraints.VerifyRepeatedly | runtime/qsym_backend/Runtime.cpp:360-374 | repeating the call drains exactly the entries that the branch contains, unless one of them has a null address |
| DelayQueue.CommitHistory | runtime/qsym_backend/Runtime.cpp:369-371 | exact set and path remain those of the distinct commits |
| DelayQueue.OfferPending | runtime/qsym_backend/Runtime.cpp:351-357 | an uncovered offer was never committed and differs from all pending entries |
| ArgumentSlots.HandsOverExactlyWhen | runtime/RuntimeCommon.cpp:96-108 | arguments arrive if and only if those that share a slot have equal expressions |
| ArgumentSlots.HandsOver | runtime/RuntimeCommon.cpp:96-108 | up to 256 argument expressions are read back as stored |
| ArgumentSlots.FirstArgumentLost | runtime/RuntimeCommon.cpp:96-104 | the counterexample: the first of 257 arguments arrives as null |
| ArgumentSlots.StoredAt | runtime/RuntimeCommon.cpp:96-104 | a slot holds the last argument that was stored through it |
| CallSlots.IdealLawful | compiler/Symbolizer.cpp:357-391 | event by event: an activation enters with the parameters that its caller's arguments come to from what the caller saw, receives what its own callee's result comes to from what that callee saw (null from an uninstrumented one), enters once, and misses no used result |
| CallSlots.GlobalSlots.GetReturnExpression | runtime/RuntimeCommon.cpp:89-94 | fetching the return expression clears it |
| CallSlots.GlobalSlots.SetParameterExpressions | compiler/Symbolizer.cpp:372-375 | the caller stores all arguments in order |
| CallSlots.GlobalSlots.GetParameterExpressions | compiler/Symbolizer.cpp:28-40 | the callee fetches its parameters from the slots |
| CallSlots.GlobalSlots.Execute | compiler/Symbolizer.cpp:28-40 | a call tree of any depth run through the slots gives the events of direct parameter passing, and these obey the law of IdealLawful: each callee sees its own caller's arguments, each caller its own callee's result or null, never a stale one |
| CallSlots.GlobalSlots.PerformCall | compiler/Symbolizer.cpp:357-391 | one call, with the return slot cleared before it when the result is used |
| Collector.CollectRegion | runtime/GarbageCollection.cpp:32-39 | collects exactly the non-null expressions of a region |
| Collector.CollectPages | runtime/GarbageCollection.cpp:45-47 | collects exactly the expressions of all pages |
| Collector.PageExprsMean | runtime/GarbageCollection.cpp:45-47 | these are the expressions that some address has |
| Collector.Sweep | runtime/qsym_backend/Runtime.cpp:506-513 | the erasing loop leaves the intersection |
| Collector.Registry.ReachableMeans | runtime/GarbageCollection.cpp:30-50 | reachable means held by some address or some registered region |
| Collector.Registry.RegisterExpression | runtime/qsym_backend/Runtime.cpp:103-113 | registers the expression and returns it |
| Collector.Registry.RegisterExpressionRegion | runtime/GarbageCollection.cpp:26-28 | adds a region to be scanned |
| Collector.Registry.Lookup | runtime/qsym_backend/Runtime.cpp:392-400 | an expression taken from shadow memory is always found in the registry |
| Collector.Registry.Store | runtime/RuntimeCommon.cpp:119-125 | shadow writes of registered expressions keep everything stored registered |
| Collector.Registry.StoreInRegion | runtime/GarbageCollection.cpp:26-28 | so do writes to a registered region |
| Collector.Registry.Copy | runtime/RuntimeCommon.cpp:127-141 | so do shadow copies |
| Collector.Registry.CollectReachableExpressions | runtime/GarbageCollection.cpp:30-50 | the nested loops collect exactly the reachable expressions |
| Collector.Registry.CollectGarbage | runtime/qsym_backend/Runtime.cpp:497-513 | below the threshold nothing happens; otherwise exactly the reachable part of the registry remains, and everything stored stays registered |
| InputVariables.InputTable.GetInputByte | runtime/simple_backend/Runtime.cpp:183-196 | the table is that of the history of requests |
| InputVariables.SameOffsetSameVariable | runtime/simple_backend/Runtime.cpp:183-196 | asking for the same offset again gives the same variable |
| InputVariables.DifferentOffsetsDiffer | runtime/simple_backend/Runtime.cpp:183-196 | two offsets never share a variable |
| InputVariables.NamesMatchExactlyWhen | runtime/simple_backend/Runtime.cpp:186-193 | every variable is named after its offset if and only if no request goes beyond the next unused offset |
| InputVariables.GapMisnames | runtime/simple_backend/Runtime.cpp:186-193 | the counterexample: a first request for offset 1 is answered with the variable named 0 |
| InputVariables.SkippedIsNull | runtime/simple_backend/Runtime.cpp:192-193 | an offset that was skipped has no variable later |
| InputTracking.PushInputBytes | runtime/qsym_backend/Runtime.cpp:139-144 | the recorded test case gets the bytes at their offsets and keeps the others |
| InputTracking.ArrivingMeans | runtime/LibcWrappers.cpp:174-194 | what arrives is the file from the position on, as much as is wanted and left |
| InputTracking.ElementsFit | runtime/LibcWrappers.cpp:258-276 | the count is the largest number of whole elements, and there is no remainder exactly if they make up all bytes |
| InputTracking.InputWrappers.ReadInput | runtime/LibcWrappers.cpp:174-194 | the bytes from the current position arrive, each labelled with its file offset; the tracked offset is the stream position |
| InputTracking.InputWrappers.ReadOther | runtime/LibcWrappers.cpp:188-191 | reading from elsewhere erases stale labels |
| InputTracking.InputWrappers.SeekInput | runtime/LibcWrappers.cpp:210-223 | after seeking the tracked offset is the stream position; a failed seek changes nothing |
| InputTracking.InputWrappers.RewindInput | runtime/LibcWrappers.cpp:298-305 | rewinding puts both at the start |
| InputTracking.InputWrappers.FReadInput | runtime/LibcWrappers.cpp:258-276 | whole elements are labelled; offset and position agree afterwards if and only if no partial element was consumed |
| InputTracking.InputWrappers.GetC | runtime/LibcWrappers.cpp:361-375 | the result is the byte at the position, its expression evaluates to it and is labelled with that position, and the recorded test case gets the byte and keeps the others |
| InputTracking.InputWrappers.UngetC | runtime/LibcWrappers.cpp:395-403 | a successful push-back, of the character converted to a byte, keeps the state valid if and only if it is the byte before the position |
| InputTracking.PartialElementFallsBehind | runtime/LibcWrappers.cpp:258-276 | the counterexample: five bytes read in elements of four |
| InputTracking.OtherBytePushedBack | runtime/LibcWrappers.cpp:395-403 | the counterexample: pushing back a byte that was not read |
| Coverage.AflMap.Merge | util/symcc_fuzzing_helper/src/symcc.rs:78-88 | the map becomes the bitwise union, and the result tells whether the other map had a bit that was missing |
| Coverage.ChangesExactlyWhen | util/symcc_fuzzing_helper/src/symcc.rs:78-88 | merging changes the map if and only if there is a bit to add |
| Coverage.UnionAllHit | util/symcc_fuzzing_helper/src/symcc.rs:78-88 | a bit is in the cumulative map exactly if it is in one of the merged maps |
| Coverage.OrderIrrelevant | util/symcc_fuzzing_helper/src/symcc.rs:78-88 | the cumulative map does not depend on order or repetition |
| Coverage.NewCoverageCounts | util/symcc_fuzzing_helper/src/symcc.rs:78-88 | each merge that adds coverage increases the number of set bits, which is at most 8 * 65536 |
| Testcases.ScoreOrder | util/symcc_fuzzing_helper/src/symcc.rs:91-108 | the lexical comparison of scores is a total order |
| Testcases.ScoreDecides | util/symcc_fuzzing_helper/src/symcc.rs:91-153 | "+cov" beats anything without it, then "orig:", then the smaller size, then the later name in dictionary order; a file that has disappeared loses to all others |
| Testcases.NameOrder | util/symcc_fuzzing_helper/src/symcc.rs:104-108 | names compare at the first difference, a prefix comes first |
| Testcases.BestNewTestcase | util/symcc_fuzzing_helper/src/symcc.rs:302-323 | an unseen file with the maximal score, or nothing if and only if every file was seen |
| Testcases.PaddedNumber | util/symcc_fuzzing_helper/src/symcc.rs:197-197 | the padded number in a name can be read back, whatever its length |
| Testcases.NamesDiffer | util/symcc_fuzzing_helper/src/symcc.rs:196-198 | names with different numbers are different |
| Testcases.PaddedShape | util/symcc_fuzzing_helper/src/symcc.rs:197-197 | at least six digits, and exactly six below one million |
| Testcases.CopyAsParent | util/symcc_fuzzing_helper/src/symcc.rs:190-197 | a copy's name has an ID, and the six characters that are taken from it are its number if and only if that is below one million |
| Testcases.NameExample | util/symcc_fuzzing_helper/src/symcc.rs:197-197 | the name of the thirteenth copy, of test case 3 |
| Testcases.TestcaseDir.CopyTestcase | util/symcc_fuzzing_helper/src/symcc.rs:180-217 | a copy gets a name of its own and never replaces a file; without an ID in the parent's name it fails and changes nothing; the next number is the number of files |
| FuzzingLoop.HelperState.ProcessNewTestcase | util/symcc_fuzzing_helper/src/main.rs:337-392 | New if and only if the map adds a bit to the union of all maps before it; New and crashing test cases join the queue, crashing ones also the crashes, hanging ones nothing |
| FuzzingLoop.VerdictQueued | util/symcc_fuzzing_helper/src/main.rs:337-392 | New and Crash are filed, a timeout hangs, a map that adds nothing is uninteresting, and only filing without an ID fails |
| FuzzingLoop.HelperState.ProcessAll | util/symcc_fuzzing_helper/src/main.rs:234-242 | it succeeds exactly if no filing fails; then the queue has everything that it had, and every New or crashing test case in order under the next numbers, the crashes likewise |
| FuzzingLoop.HelperState.TestInput | util/symcc_fuzzing_helper/src/main.rs:217-263 | all test cases are processed and filed in order, a killed input is archived, and the input is marked as processed exactly if no step failed; without an ID nothing is filed |
| FuzzingLoop.HelperState.MainLoop | util/symcc_fuzzing_helper/src/main.rs:305-323 | in each iteration a best file among those not selected before is selected and run, and none exactly if there is none; no path is selected twice; every run but the last succeeds, and the loop ends early exactly if the last fails; the processed files are those of the successful runs, the map is the union of their maps, and at most 8 * 65536 test cases are ever New |

## Left out

- Floating point: the QSYM backend does not support it and the simple backend delegates it.
- Funnel shifts: their extract bounds are passed in the opposite order to the helper's convention.
- Widths of 64 bits and more in the limit literals of the saturating builders: the shifts that compute them are not defined there.
- Integers of 65 to 127 bits, indices wider than a pointer, and i1 indices: no constant expression of that width, or no conversion, exists in the pass.
- Overflow results of eight bits in little-endian order: building them swaps a single byte, which an assertion rejects.
- Constant expressions of arrays, of undef structures, of structures with i1 members and of scalars of an odd number of bytes above one: the encoding asserts or does not cover them.
- ValueChains.InsertIsLift: members whose width is neither one bit nor whole bytes, or an odd number of bytes above one in little-endian order, are excluded; the pass converts only i1.
- Loads and stores of widths other than one bit that are not whole bytes: excluded in the replayed programs by `Storable`, as the bytes in memory have no expression of such a width.
- Types of 2^64 bytes and more: offsets are unbounded except for the 32-bit products.
- Wrap-around of addresses at 2^64: shadow addresses are unbounded.
- MemoryOps.MemCpy: regions that overlap so that a forward copy would read what it wrote are excluded, as they are for the C function.
- mmap, fgets and strchr: one offset or one length stands for many bytes there, or the result is not fully constrained.
- StrNCpy, CompareRegions: the concrete results of strncpy, memcmp and bcmp are not part of the replayed programs; only their shadow effect and the pushed formula are stated.
- Address computations in the replayed programs: they are sums of integer operations there; the chains of run-time calls are treated in GetElementPtr.
- Uninstrumented callees in the replayed programs: they are treated in CallSlots, where they touch no slot and do not call back.
- finalizePHINodes erases phis whose inputs are all null at compile time; in the model such a phi stays and evaluates to null.
- Traps other than those of divisions, such as accesses to unmapped addresses or shifts by too much: such programs are undefined, and the model gives them the meaning of the expressions.
- PushPathConstraint: Z3 is a sound simplifier and a decision procedure without a timeout; models are not turned into files.
- QSYM's own solver, pruning and call-stack manager, LLVM's APIs, inline assembly and exception edges.
- The registry of the simple backend: its input variables are never registered, so the collector is that of the QSYM backend.
- Roots that are only in parameter slots, the return slot or the delayed queue: the collector does not scan them, so they are no part of its invariant.
- Native buffering: the stream behind the input descriptor has one position, and at most one byte can be pushed back.
- Process spawning, copying of files on disk and its errors, statistics and logging of the fuzzing helper; file names are ASCII.
- The endless loop of the fuzzing helper is any finite number of its iterations.
- compiler/Runtime.cpp, compiler/Pass.cpp, compiler/Main.cpp and runtime/Config.cpp: registration and configuration.
