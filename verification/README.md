# Verified model of the Fusor bytecode core

This project models, in Dafny, how Fusor turns a symbolic instruction plan into final bytecode, how it decides whether
a graph of compiled functions may be trusted, and the algorithms its development harness depends on. The results are
statements for all inputs, all runs or all reachable states. `dafny verify dfyconfig.toml` checks the whole project.

## Contents

| files | component |
|---|---|
| `Schema`, `PinnedTable`, `Codec`, `ByteFormat`, `Builder` | operand schema, pinned opcode table, instruction codec, the byte format written out, bounded builder and fused decoder |
| `Plan`, `Layout`, `Relaxation`, `Threading`, `Emission`, `BranchForms`, `Assembler`, `Execution` | the symbolic assembler: branch relaxation, goto threading, emission, layouts seen by the encoder, and a byte machine for the end-to-end theorem |
| `StackDepth`, `StackAnalysis`, `Subroutines` | depths and walks of one body, the ordinary-stack analysis, and executions that return from finally subroutines |
| `Arithmetic`, `Finite`, `Digraph`, `Topology` | division, counting, directed multigraphs, topological sorting and nesting depth |
| `DirectEval`, `FunctionGraph`, `GraphBudget`, `GraphVerifier`, `Captures` | direct-eval records, function records, aggregate budgets, whole-graph verification, meaning of captured variables |
| `Strings`, `Decimal`, `NumberText`, `NumberFormat` | exact strings, canonical decimals, tidy number texts, JavaScript number spelling |
| `SplitMix`, `RadixCases` | the seeded generator and the bounded case list |
| `WorkerProtocol`, `Inventory` | the parallel case runner as a state machine, and the folds over its results |
| `PinnedMessage`, `Evidence`, `ManifestCase`, `Manifest` | the pinned-message matcher, evidence references, single manifest cases and the closed ledger of parser fixtures |

## Main results

* Relaxation returns the least valid layout and reports a displacement failure only when no layout is valid; its limit
  fails exactly below the passes that the plan takes, at most 1 + 2 gotos + conditionals (`Relaxation.RelaxedLayout`).
* The bytes that `finish` returns execute like the original plan, through threading, relaxation, encoding and decoding
  (`Execution.AssemblyPreservesRuns`).
* `finish` succeeds if and only if the labels are resolved, some layout fits and the passes are within their limit
  (`Assembler.BytecodeAssembler.Finish`).
* Stack analysis accepts exactly the bodies whose first arrivals give depths that every checked edge respects. Those
  depths hold on every walk along the edges that it follows exactly when some depths are respected by every edge, the
  deferred finally entries included (`StackAnalysis.AnalyzeOrdinaryStack`); an accepted body where they do not hold is
  `Subroutines.DeferredJoinDiffers`. In a walk a gosub passes straight to its continuation and `ret` ends; on executions
  that return through the pushed address the depths hold exactly when, besides, every subroutine returns at the depth
  with which it was called (`Subroutines.BalancedExactly`, `Subroutines.UnbalancedReturnDiffers`).
* The codec is a bijection between instruction streams and decodable byte strings (`Codec.StreamRoundTrip`,
  `Codec.BytesRoundTrip`), and its bytes are the little-endian ones at the stated offsets (`ByteFormat.DecodedValues`).
* The least layout is the least that the encoder can realize (`BranchForms.LeastExactly`), and threading leaves nothing
  to thread (`Threading.ThreadingComplete`).
* Graph verification accepts exactly the graphs that meet conditions stated without any pass
  (`GraphVerifier.VerifyGraph`), and in an accepted graph every captured variable resolves to a real cell on every path
  from the root; the local checks are not only sufficient but exact (`Captures.CapturesResolve`,
  `Captures.ClosureChecksExact`).
* Parallel execution equals the sequential map for every job count and interleaving, and cannot deadlock
  (`WorkerProtocol.ParallelIsSequential`, `WorkerProtocol.RunsComplete`); one pool thread fewer than reserved would
  deadlock a single job (`WorkerProtocol.OneThreadDeadlocks`).
* The sampler succeeds for every seed exactly when there are at most three boundary values per sample, or no samples;
  otherwise boundary values exist that exhaust its attempts (`RadixCases.GuaranteedExactly`,
  `RadixCases.TooManyBoundaries`).
* A number has one tidy text, and the formatter writes it (`NumberText.TidyUnique`, `NumberFormat.Format`); two rendered
  decimals get the same one exactly when they denote the same number
  (`NumberFormat.FormatCanonical`). The formatter is right on every text that a binary64 value renders to
  (`NumberFormat.ModerateIsExact`); over all numerals it is right exactly where its saturating exponent arithmetic is
  exact (`NumberFormat.Format`, `NumberFormat.ScientificExact`), and `NumberFormat.SaturationFails` only marks the edge
  of that wider domain.

## Conventions

* Machine integers are unbounded integers with explicit ranges; checked, wrapping and saturating operations of the
  source are written out. Lengths of sequences are unbounded, so an overflow check on a length is the check itself.
* The opcode table is a parameter of codec and assembler; `PinnedTable` shows that the pinned one qualifies.
* A label's owner is an object created with its assembler, compared by reference as the source compares its owner token.
* Results of code outside the model are parameters: what executing a case returns, what a machine does at an
  instruction, the decimal that the standard library renders, the tables of claims, diagnostics and productions.
* `Decimal.Same` is equality of rational numbers written as an integer times a power of ten.
* A comment in the assembler promises the least valid fixed point; the code meets it, and the model shows in addition
  that the fixed point is reached from below in every pass.

## Model

| member | source | states |
|---|---|---|
| `Schema.OperandWidth` | crates/fusor-bytecode/src/lib.rs:179-201 | the width of every operand format, never more than the ten-byte operand buffer |
| `PinnedTable.PinnedTableFits` | crates/fusor-bytecode/src/opcode_table.rs:27-310 | the pinned table gives the branch family and the `with_*` family the label formats that assembling relies on |
| `PinnedTable.ListedSizesFit` | crates/fusor-bytecode/src/opcode_table.rs:27-310 | for all 249 final opcodes the listed size is the one the operand format implies |
| `PinnedTable.OpcodePlaces` | crates/fusor-bytecode/src/opcode_table.rs:27-310 | every opcode constant is the place of the opcode of its name in the table |
| `PinnedTable.EvalFormats` | crates/fusor-bytecode/src/opcode_table.rs:27-310 | the table gives the eval and property-naming opcodes the operand formats that their checks read |
| `Codec.FieldsMatchWidth` | crates/fusor-bytecode/src/codec.rs:295-371 | for every format the encoded fields add up to the declared operand width |
| `Codec.LeRoundTrip` | crates/fusor-bytecode/src/codec.rs:1309-1343 | little-endian bytes read back as the value written, for every field width of one to four bytes |
| `Codec.LeOfBytes` | crates/fusor-bytecode/src/codec.rs:1309-1343 | little-endian values written back give the bytes read, for every width |
| `Codec.FieldRoundTrip` | crates/fusor-bytecode/src/codec.rs:1309-1343 | signed and unsigned fields survive encoding |
| `ByteFormat.WrittenByte` | crates/fusor-bytecode/src/codec.rs:1309-1343 | byte j of a written value is its digit j in base 256: least significant first |
| `ByteFormat.ReadValue` | crates/fusor-bytecode/src/codec.rs:1309-1343 | a read value is the sum of its bytes, each times its own power of 256 |
| `ByteFormat.FieldByte` | crates/fusor-bytecode/src/codec.rs:295-371 | byte j of a field is digit j of its value, negative values in two's complement |
| `ByteFormat.DecodedValues` | crates/fusor-bytecode/src/codec.rs:385-458 | every format has its fields at the stated offsets, signed or unsigned as stated, written out byte by byte apart from the codec |
| `ByteFormat.EncodedValues` | crates/fusor-bytecode/src/codec.rs:295-371 | an encoded payload carries its values at those offsets |
| `Codec.DecodeOperands` | crates/fusor-bytecode/src/codec.rs:385-458 | accepted exactly for payloads of the declared width; the result has the requested format and in-range fields |
| `Codec.OperandRoundTrip` | crates/fusor-bytecode/src/codec.rs:295-458 | decoding the payload of any operand value returns that value |
| `Codec.PayloadRoundTrip` | crates/fusor-bytecode/src/codec.rs:295-458 | every payload of the right width is the payload of the value it decodes to |
| `Codec.NewInstruction` | crates/fusor-bytecode/src/codec.rs:533-547 | an instruction is made exactly when the opcode is not the reserved one and the operands have its format |
| `Codec.DecodeInstruction` | crates/fusor-bytecode/src/codec.rs:630-695 | a decoded instruction is valid, starts at the given position and ends inside the stream by its own size |
| `ByteFormat.DecodedInstruction` | crates/fusor-bytecode/src/codec.rs:630-695 | what is decoded at a position: opcode byte, operands at their offsets and next position, or the one reason for each refusal |
| `Codec.DecodeOfEncoded` | crates/fusor-bytecode/src/codec.rs:630-695 | an encoded instruction decodes to itself wherever it stands in a stream |
| `Codec.EncodedOfDecode` | crates/fusor-bytecode/src/codec.rs:630-695 | a decoded instruction re-encodes to the bytes it was read from |
| `Codec.StreamRoundTrip` | crates/fusor-bytecode/src/codec.rs:736-760 | decoding an encoded stream returns the same instructions at the positions their sizes dictate |
| `Codec.BytesRoundTrip` | crates/fusor-bytecode/src/codec.rs:736-760 | re-encoding any fully decodable byte string returns the same bytes, and every decoded instruction is valid |
| `Builder.EncodedOperands.PushBytes` | crates/fusor-bytecode/src/codec.rs:494-517 | a field is appended whole exactly when it fits the fixed buffer |
| `Builder.EncodeOperands` | crates/fusor-bytecode/src/codec.rs:295-371 | encoding never overflows the buffer and never disagrees with the schema width, for every operand value |
| `Builder.BytecodeBuilder.PushInstruction` | crates/fusor-bytecode/src/codec.rs:834-893 | succeeds exactly when position and byte limit allow; on success the stream grows by this instruction, on failure nothing changes |
| `Builder.BuilderRoundTrip` | crates/fusor-bytecode/src/codec.rs:767-893 | decoding the bytes of any zero-origin builder returns exactly the pushed instructions and positions |
| `Builder.InstructionDecoder.Next` | crates/fusor-bytecode/src/codec.rs:736-763 | yields the head of what remains to be decoded and, once exhausted, stays exhausted |
| `Layout.DistanceMonotone` | crates/fusor-bytecode/src/assembler.rs:924-978 | widening items never brings two instruction boundaries closer |
| `Layout.FitsWhenNarrowed` | crates/fusor-bytecode/src/assembler.rs:1035-1087 | a branch that fits in a wider layout fits in a narrower one of the same own width, forward or backward |
| `Layout.RequiredBelowValid` | crates/fusor-bytecode/src/assembler.rs:1035-1087 | below a valid layout, the required size of a branch exists and is no larger than in that layout |
| `Layout.PassKeepsLowerBound` | crates/fusor-bytecode/src/assembler.rs:950-978 | one pass stays pointwise below every valid layout |
| `Layout.NoCandidateNoLayout` | crates/fusor-bytecode/src/assembler.rs:1070-1086 | when a branch has no candidate size, no valid layout exists at all |
| `Layout.FixedPointIsValid` | crates/fusor-bytecode/src/assembler.rs:639-643 | a pass that changes nothing has reached a valid layout |
| `Layout.SlackDecreases` | crates/fusor-bytecode/src/assembler.rs:950-978 | every changing pass uses up some of the finite widening slack |
| `Layout.InitialSlack` | crates/fusor-bytecode/src/assembler.rs:924-932 | the initial slack is two for each goto and one for each conditional branch |
| `BranchForms.FitsExactly` | crates/fusor-bytecode/src/assembler.rs:1059-1064 | a displacement fits a size of a family if and only if a valid final instruction of that family and size carries it |
| `BranchForms.SupportsExactly` | crates/fusor-bytecode/src/assembler.rs:64-70 | a family has exactly the sizes of its final instructions |
| `BranchForms.WithFitsExactly` | crates/fusor-bytecode/src/assembler.rs:1102-1125 | an object-environment branch holds a displacement if and only if a valid instruction carries it, in a label field that starts five bytes in |
| `BranchForms.SymbolicExactly` | crates/fusor-bytecode/src/assembler.rs:1004-1014 | the pinned opcodes that need a symbolic branch are exactly those of the branch families and of the object environment |
| `BranchForms.ValidExactly` | crates/fusor-bytecode/src/assembler.rs:924-978 | a layout is valid if and only if under it every item has an encodable instruction, each branch one whose label field holds the distance to its target |
| `BranchForms.LeastExactly` | crates/fusor-bytecode/src/assembler.rs:924-978 | the least layout is the pointwise least among all that can be encoded |
| `BranchForms.WithReachExactly` | crates/fusor-bytecode/src/assembler.rs:1102-1125 | an object-environment branch reaches its target if and only if some instruction of its size says so |
| `Relaxation.PopulatePositions` | crates/fusor-bytecode/src/assembler.rs:1016-1033 | positions are the running sums of the sizes; the 64-bit sum overflows only if the exact sum does |
| `Relaxation.ResizedIsExact` | crates/fusor-bytecode/src/assembler.rs:1048-1058 | the displacement computed for a candidate width is the displacement in the layout resized at that branch alone |
| `Relaxation.RequiredBranchSize` | crates/fusor-bytecode/src/assembler.rs:1035-1087 | returns the smallest supported candidate that reaches the target, or an error exactly when none does |
| `Relaxation.ChargePass` | crates/fusor-bytecode/src/assembler.rs:980-995 | a pass is charged exactly when the exact total stays within the limit |
| `Relaxation.RelaxationPass` | crates/fusor-bytecode/src/assembler.rs:953-973 | computes the required sizes against the positions of this pass and reports whether any grew |
| `Relaxation.RelaxedLayout` | crates/fusor-bytecode/src/assembler.rs:924-995 | returns the least valid layout; a displacement failure means that no valid layout exists; the limit failure occurs if and only if the limit is below the items times the passes that the plan takes, and otherwise exactly those passes are made |
| `Relaxation.PassCountBounded` | crates/fusor-bytecode/src/assembler.rs:924-978 | the passes that a plan takes are at most 1 + 2 gotos + conditionals |
| `Threading.ThreadingResolved` | crates/fusor-bytecode/src/assembler.rs:793-902 | threaded branches still name planned instructions, never the stream end |
| `Threading.ThreadingIdempotent` | crates/fusor-bytecode/src/assembler.rs:825-902 | threading a threaded plan changes nothing |
| `Threading.CyclicStays` | crates/fusor-bytecode/src/assembler.rs:864-869 | a label on a goto cycle is on one after threading |
| `Threading.ThreadingComplete` | crates/fusor-bytecode/src/assembler.rs:880-900 | after threading no conditional or unconditional branch leads to a goto outside goto cycles, and nothing but such branches has changed |
| `Threading.ThreadingPreservesRuns` | crates/fusor-bytecode/src/assembler.rs:825-902 | for every machine, start and state both plans run the same non-goto instructions in the same states, and the threaded one needs no more steps |
| `Assembler.BytecodeAssembler.NewLabel` | crates/fusor-bytecode/src/assembler.rs:504-518 | labels are dense, unbound and owned; existing bindings are untouched |
| `Assembler.BytecodeAssembler.Bind` | crates/fusor-bytecode/src/assembler.rs:527-537 | binds exactly own, known, unbound labels to the next instruction; otherwise nothing changes |
| `Assembler.BytecodeAssembler.Push` | crates/fusor-bytecode/src/assembler.rs:545-558 | accepts exactly valid non-symbolic instructions within the instruction limit and appends them; a refusal changes nothing |
| `Assembler.BytecodeAssembler.PushBranch` | crates/fusor-bytecode/src/assembler.rs:566-578 | appends a symbolic branch to an own label, or changes nothing |
| `Assembler.BytecodeAssembler.PushWithBranch` | crates/fusor-bytecode/src/assembler.rs:590-635 | appends a `with_*` branch to an own label, or changes nothing |
| `Assembler.BytecodeAssembler.ValidateBoundLabels` | crates/fusor-bytecode/src/assembler.rs:793-814 | passes exactly when every label is bound inside the plan and every target is an instruction, and otherwise names an offender |
| `Assembler.BytecodeAssembler.ResolveFrom` | crates/fusor-bytecode/src/assembler.rs:848-877 | following gotos from a label settles its whole path correctly as ending or cyclic and leaves settled labels alone |
| `Assembler.BytecodeAssembler.ResolveTargets` | crates/fusor-bytecode/src/assembler.rs:844-878 | every label is settled: its chain's end, or a cycle exactly when there is no end |
| `Assembler.BytecodeAssembler.RewriteItems` | crates/fusor-bytecode/src/assembler.rs:880-900 | the in-place rewrite produces the threading of the old plan |
| `Assembler.BytecodeAssembler.ThreadRedundantGotoTargets` | crates/fusor-bytecode/src/assembler.rs:825-902 | the plan becomes its threading and stays resolved and encodable; no branch is left to thread, and catch, gosub, `with_*` and plain items are untouched |
| `Emission.BranchInstruction` | crates/fusor-bytecode/src/assembler.rs:1127-1202 | the final form of a branch exists exactly when its displacement fits the width, and is then a valid instruction of that size |
| `Emission.EmitItem` | crates/fusor-bytecode/src/assembler.rs:677-717 | emits the final form of one item; fails only for an object-environment branch out of reach |
| `Emission.Emit` | crates/fusor-bytecode/src/assembler.rs:661-738 | emits one final form per item at the recorded positions; never a layout mismatch |
| `Emission.EmittedDecodes` | crates/fusor-bytecode/src/assembler.rs:650-738 | decoding the output yields one instruction per item at its position |
| `Assembler.BytecodeAssembler.Finish` | crates/fusor-bytecode/src/assembler.rs:650-738 | on success the bytes decode to one instruction per item of the threaded plan at the recorded positions under the least layout, with every branch base plus displacement at its target; every failure is one of the explained ones, never a layout mismatch or an ordinary branch error after relaxation; it succeeds if and only if labels are resolved, some layout at all fits every branch, `with_*` included, within the byte limit, and the passes that the threaded plan takes are within the evaluation limit |
| `Emission.WithFitsWhenNarrowed` | crates/fusor-bytecode/src/assembler.rs:1102-1125 | an object-environment branch that reaches its target in a wider layout reaches it in a narrower one |
| `Emission.LeastDecides` | crates/fusor-bytecode/src/assembler.rs:650-738 | some layout fits every branch within a byte limit if and only if the least one does |
| `Execution.EmittedRuns` | crates/fusor-bytecode/src/assembler.rs:650-738 | the emitted bytes, decoded and executed by address, run exactly the threaded plan |
| `Execution.AssemblyPreservesRuns` | crates/fusor-bytecode/src/assembler.rs:644-738 | end to end: the final bytes and the original symbolic plan execute the same sequence of non-goto instructions in the same states, for every machine and start |
| `Execution.RelocatedMachine` | crates/fusor-bytecode/src/assembler.rs:644-738 | every machine over item positions has a machine over byte addresses to which the end-to-end theorem applies |
| `Topology.ReleaseChildren` | crates/fusor-bytecode/src/compiler_graph.rs:2460-2468 | no counter is taken below zero, so the saturating subtraction never saturates, and each child becomes ready exactly once |
| `Topology.SortStep` | crates/fusor-bytecode/src/compiler_graph.rs:2456-2469 | processing one ready function keeps counters exact and the order parents-first |
| `Topology.BuildTopologicalOrder` | crates/fusor-bytecode/src/compiler_graph.rs:2411-2481 | succeeds exactly on acyclic graphs, repeated edges included, with a parents-first permutation; otherwise names a function on or downstream of a cycle |
| `Topology.RaiseChildren` | crates/fusor-bytecode/src/compiler_graph.rs:2513-2528 | relaxes the edges of one function and keeps the running maximum, stopping only beyond the limit |
| `Topology.DepthFits` | crates/fusor-bytecode/src/compiler_graph.rs:2503-2512 | depths stay within the function count, so the 32-bit increment never overflows |
| `Topology.ValidateNestingDepth` | crates/fusor-bytecode/src/compiler_graph.rs:2483-2538 | computes the longest root path to every function and its maximum; each failure names a function with a longer path or without any |
| `Topology.DepthExact` | crates/fusor-bytecode/src/compiler_graph.rs:2483-2538 | success is equivalent to every function being reachable and no root path exceeding the limit |
| `Topology.OnlyRootHasNoParent` | crates/fusor-bytecode/src/compiler_graph.rs:2483-2538 | with all functions reachable and no cycle, exactly the root has no parent |
| `FunctionGraph.ValidateAtomTable` | crates/fusor-bytecode/src/compiler_graph.rs:2205-2246 | passes exactly tables of distinct atoms in which the static-property-only ones are the empty string and the tagged integers; otherwise names the offender |
| `FunctionGraph.ValidateUniqueSources` | crates/fusor-bytecode/src/compiler_graph.rs:2166-2197 | passes exactly distinct sources; otherwise names the first repetition and its first occurrence |
| `FunctionGraph.FirstStaticOperand` | crates/fusor-bytecode/src/compiler_graph.rs:2248-2283 | names the first instruction that uses a static-property-only atom without being one that may; passes exactly when there is none |
| `FunctionGraph.AtomOperandBytes` | crates/fusor-bytecode/src/codec.rs:278-287 | the atom that an instruction names is the little-endian word that its operand bytes start with, for the five atom formats and no other |
| `FunctionGraph.TargetsCount` | crates/fusor-bytecode/src/compiler_graph.rs:2411-2431 | a function counts as a child as often as it is embedded |
| `FunctionGraph.ValidateAtoms` | crates/fusor-bytecode/src/compiler_graph.rs:2199-2304 | passes only when the table, the operands of all instructions and the realm-global sources use atoms as classified; otherwise names an offender |
| `DirectEval.ValidateEvalReferenceCalls` | crates/fusor-bytecode/src/compiler_graph.rs:1921-1982 | passes only strictly ascending lists of eval instructions whose receivers are on the stack wherever they are reachable; otherwise the refusal is true |
| `DirectEval.ValidateEvalRecord` | crates/fusor-bytecode/src/compiler_graph.rs:1851-1919 | passes exactly when marker, reference calls, parameter boundary and phases are all right; each refusal names a condition that fails |
| `DirectEval.UnmarkedDeclaresNothing` | crates/fusor-bytecode/src/compiler_graph.rs:1851-1919 | an accepted record without the marker lists no call and no parameter boundary |
| `DirectEval.PhasesSeparate` | crates/fusor-bytecode/src/compiler_graph.rs:1891-1918 | in an accepted record every eval of the parameter scope comes before every eval of the body |
| `DirectEval.CountedEvalBytes` | crates/fusor-bytecode/src/compiler_graph.rs:1941-1950 | a counted eval needs two values more than its first two operand bytes say and names the scope in the last two |
| `DirectEval.AppliedEvalBytes` | crates/fusor-bytecode/src/compiler_graph.rs:1941-1950 | an applied eval needs three values and names the scope in its two operand bytes |
| `DirectEval.OtherNoEval` | crates/fusor-bytecode/src/compiler_graph.rs:1855-1863 | no other opcode is an eval or names a scope |
| `FunctionGraph.ValidateRecord` | crates/fusor-bytecode/src/compiler_graph.rs:1750-1849 | a record passes exactly when it meets all conditions together; each refusal names a condition that fails |
| `GraphBudget.TemplateFits` | crates/fusor-bytecode/src/compiler_graph.rs:228-279 | no template built by its constructor is large enough to saturate its payload |
| `GraphBudget.SumTemplate` | crates/fusor-bytecode/src/compiler_graph.rs:275-279 | the saturating template payload is the exact sum |
| `GraphBudget.FunctionTextPayload` | crates/fusor-bytecode/src/compiler_graph.rs:2306-2346 | the text payload is the exact sum, refused exactly when it leaves 64 bits |
| `GraphBudget.TextBytes` | crates/fusor-bytecode/src/compiler_graph.rs:2306-2346 | the text payload of a function is, over all its texts, one byte for each code unit where all fit one byte and two otherwise |
| `GraphBudget.Charge` | crates/fusor-bytecode/src/compiler_graph.rs:2573-2618 | a charge succeeds exactly when the exact sum is within the limit, and is never wrapped |
| `GraphBudget.ChargeFunction` | crates/fusor-bytecode/src/compiler_graph.rs:2109-2162 | charging one function moves all seven totals from one exact prefix sum to the next, or names the first budget left, in the order of charging |
| `GraphBudget.Preflight` | crates/fusor-bytecode/src/compiler_graph.rs:2099-2164 | succeeds exactly when each of the seven sums, written for its own quantity, is within the limit of its name, and returns those sums |
| `GraphBudget.BudgetsExactly` | crates/fusor-bytecode/src/compiler_graph.rs:2099-2164 | the charged totals are within their budgets if and only if the seven sums are within the limits of their names |
| `GraphVerifier.ValidateRootClosureSources` | crates/fusor-bytecode/src/compiler_graph.rs:2007-2097 | passes exactly when only the root owns external sources and those agree on one environment in which they lie; otherwise names the first offender |
| `GraphVerifier.ValidateClosureEdges` | crates/fusor-bytecode/src/compiler_graph.rs:2348-2409 | succeeds exactly when every child source is in bounds on every parent edge and the number of checks, each edge counted, is within its limit; returns that number |
| `GraphVerifier.IndegreeFits` | crates/fusor-bytecode/src/compiler_graph.rs:2417-2431 | within the constant budget no incoming-edge counter can leave 64 bits |
| `GraphVerifier.VerifyGraph` | crates/fusor-bytecode/src/compiler_graph.rs:1673-1748 | accepts exactly the graphs that meet the declarative conditions, with exact measurements and each usage the sum of its own quantity; each refusal is true of the graph |
| `Captures.SlotResolves` | crates/fusor-bytecode/src/compiler_graph.rs:2348-2409 | local bounds along a path make every closure slot resolve, by induction along the path |
| `Captures.CapturesResolve` | crates/fusor-bytecode/src/compiler_graph.rs:2007-2097 | in an accepted graph every closure slot on every root path resolves, within the path, to an existing variable of a proper ancestor or to a root-owned source inside its environment |
| `Captures.ClosureChecksExact` | crates/fusor-bytecode/src/compiler_graph.rs:2348-2409 | the per-edge checks hold if and only if every slot resolves on every root path |
| `Captures.AcceptedRootAlone` | crates/fusor-bytecode/src/compiler_graph.rs:1705-1711 | in an accepted graph the root is the only function that no function embeds |
| `Strings.TryFromCodeUnits` | crates/fusor-bytecode/src/compiler_string.rs:97-126 | keeps the code units exactly in canonical storage and refuses exactly the over-long |
| `Strings.StorageEquality` | crates/fusor-bytecode/src/compiler_string.rs:79-88 | canonical storage is equal exactly when the code-unit sequences are |
| `Strings.SpellingIff` | crates/fusor-bytecode/src/compiler_string.rs:179-210 | canonical digit strings are exactly the decimal spellings, one for each number |
| `Strings.IsTaggedIntegerAtom` | crates/fusor-bytecode/src/compiler_string.rs:182-210 | true exactly for the canonical decimals of 0 to 2^31-1, despite checked 32-bit early exits |
| `Strings.TryFromDecimal` | crates/fusor-bytecode/src/compiler_graph.rs:138-158 | accepts exactly the canonical spellings of natural numbers; each refusal names the first defect |
| `Strings.BigIntEquality` | crates/fusor-bytecode/src/compiler_graph.rs:122-130 | accepted BigInt payloads are equal exactly when the numbers are |
| `Decimal.JsDenotes` | crates/fusor-bytecode/src/compiler_graph.rs:321-361 | each of the four JavaScript forms denotes the digits with the point at position n |
| `Decimal.NormalizedUnique` | crates/fusor-bytecode/src/compiler_graph.rs:316-319 | digits without outer zeros and their scale are determined by the number |
| `NumberText.Characters` | crates/fusor-bytecode/src/compiler_graph.rs:321-374 | the code units are those of the signs, the point, the markers and the digits |
| `NumberText.JsTidy` | crates/fusor-bytecode/src/compiler_graph.rs:321-361 | the prescribed form is tidy: no redundant leading zero, no empty or zero-ending fraction, positional exactly from a millionth to below ten to the twenty-first, otherwise one nonzero digit before the point and a signed exponent without redundant zeros |
| `NumberText.TidyUnique` | crates/fusor-bytecode/src/compiler_graph.rs:321-361 | tidiness, sign and number determine the text |
| `NumberFormat.ParseDecimalExponent` | crates/fusor-bytecode/src/compiler_graph.rs:363-374 | the saturating fold is the exact exponent held at plus and minus 2^31 - 1 |
| `NumberFormat.ScientificExact` | crates/fusor-bytecode/src/compiler_graph.rs:311-315 | the four saturating steps give the exact scientific exponent if and only if no step clamps or the clamped errors cancel, which needs 2^31 digits |
| `NumberFormat.ModerateIsExact` | crates/fusor-bytecode/src/compiler_graph.rs:295-315 | numerals with fewer than 2^30 digits and an exponent below 2^30 are within that condition, as every text that the formatter can be given is |
| `NumberFormat.SaturationFails` | crates/fusor-bytecode/src/compiler_graph.rs:311-315 | 1e2147483647 is outside it: the edge of the wider domain of numerals, which no binary64 value reaches |
| `NumberFormat.Dissect` | crates/fusor-bytecode/src/compiler_graph.rs:296-310 | sign, digits, point position and exponent of any rendered decimal are recovered |
| `NumberFormat.Strip` | crates/fusor-bytecode/src/compiler_graph.rs:311-319 | leading and trailing zeros are dropped and nothing else |
| `NumberFormat.Write` | crates/fusor-bytecode/src/compiler_graph.rs:321-361 | writes the form prescribed by section 6.1.6.1.20 of ECMA-262 for the digits and exponent |
| `NumberFormat.Format` | crates/fusor-bytecode/src/compiler_graph.rs:296-361 | the output is the tidy text of the number rendered if and only if the saturating steps are exact for it, a condition on its exponent, the digits before its point and its leading zeros |
| `NumberFormat.SpelledExactly` | crates/fusor-bytecode/src/compiler_graph.rs:282-361 | the tidy text of a number is the form prescribed by section 6.1.6.1.20 of ECMA-262 |
| `NumberFormat.SpellingUnique` | crates/fusor-bytecode/src/compiler_graph.rs:282-361 | a rendered number has one tidy text |
| `NumberFormat.FormatDenotes` | crates/fusor-bytecode/src/compiler_graph.rs:282-361 | the output denotes the rendered number and is positional exactly for scientific exponents -6 to 20 |
| `NumberFormat.FormatCanonical` | crates/fusor-bytecode/src/compiler_graph.rs:282-361 | two renderings get the same spelling exactly when sign and number agree |
| `SplitMix.XorShiftInjective` | xtask/src/number_radix_differential.rs:371-374 | shift-xor by any positive shift is injective |
| `SplitMix.ShrDivides` | xtask/src/number_radix_differential.rs:372-374 | shifting right divides by a power of two |
| `SplitMix.XorShiftBit` | xtask/src/number_radix_differential.rs:372-374 | each bit of a shift-xor is the sum without carry of two bits of the word |
| `SplitMix.FactorInjective` | xtask/src/number_radix_differential.rs:372-373 | wrapping multiplication by an invertible factor is injective on words |
| `SplitMix.MixInjective` | xtask/src/number_radix_differential.rs:369-375 | the output function is injective on the whole 64-bit state |
| `SplitMix.SplitMix64.Next` | xtask/src/number_radix_differential.rs:369-375 | each call advances the state by one increment and returns the draw of its index |
| `SplitMix.DrawsDistinct` | xtask/src/number_radix_differential.rs:369-375 | over the full period of 2^64 draws no output repeats, for every seed |
| `RadixCases.ValidateCaseCount` | xtask/src/number_radix_differential.rs:295-308 | accepts exactly expanded sizes within the case limit |
| `RadixCases.BoundaryStage` | xtask/src/number_radix_differential.rs:318-328 | lists every boundary value in every radix, and refuses exactly repeated values |
| `RadixCases.HitsBounded` | xtask/src/number_radix_differential.rs:336-356 | rejected draws number at most the boundary values |
| `RadixCases.SampleStates` | xtask/src/number_radix_differential.rs:346-351 | attempt a mixes the states after 2a + 1 and 2a + 2 increments, into bits and into one of the radices 2 to 36 |
| `RadixCases.SampleStage` | xtask/src/number_radix_differential.rs:330-357 | succeeds exactly when at most three quarters of the attempts hit boundary values, with the first kept samples in order |
| `RadixCases.BuildCases` | xtask/src/number_radix_differential.rs:310-358 | succeeds exactly when the size is within the limit, the boundary values are distinct and few enough attempts hit them; the list is then the boundary cases followed by the first kept samples |
| `RadixCases.TooManyBoundaries` | xtask/src/number_radix_differential.rs:331-345 | with more than three boundary values per sample some boundary values exhaust the attempts |
| `RadixCases.GuaranteedExactly` | xtask/src/number_radix_differential.rs:331-345 | success is independent of the seed if and only if there are at most three boundary values per sample or no samples |
| `RadixCases.BuiltCasesDistinct` | xtask/src/number_radix_differential.rs:310-358 | the built list has no repeated case and only radices 2 to 36 |
| `WorkerProtocol.ConfigFor` | xtask/src/test262.rs:1126-1144 | every job count gives between one worker and one worker per case, with at least two pool threads |
| `WorkerProtocol.SendKeepsLog` | xtask/src/test262.rs:1150-1163 | sending adds exactly the sent case, once and with its result, to what was sent before |
| `WorkerProtocol.StepInv` | xtask/src/test262.rs:1146-1176 | every step of every worker, the channel and the coordinator keeps the invariant |
| `WorkerProtocol.NeverFails` | xtask/src/test262.rs:1160-1171 | no reachable state refuses a result or leaves the coordinator without senders |
| `WorkerProtocol.MeasureDecreases` | xtask/src/test262.rs:1146-1176 | every step decreases a measure of unexecuted cases, unsent and queued results and open roles |
| `WorkerProtocol.RunSafe` | xtask/src/test262.rs:1146-1176 | every run keeps the invariant and is no longer than the initial measure |
| `WorkerProtocol.NoDeadlock` | xtask/src/test262.rs:1130-1176 | with two or more pool threads every state short of the end has an enabled step |
| `WorkerProtocol.RunsComplete` | xtask/src/test262.rs:1118-1179 | for every job count a run can stop only when all workers have finished and the coordinator has completed |
| `WorkerProtocol.OneThreadDeadlocks` | xtask/src/test262.rs:1130-1134 | with a single pool thread the run that spawns all workers is stuck |
| `WorkerProtocol.ExecutedOnce` | xtask/src/test262.rs:1150-1163 | no run executes a case twice, and a completed run has executed each exactly once |
| `WorkerProtocol.ParallelIsSequential` | xtask/src/test262.rs:1118-1179 | for every job count and interleaving the returned list is the sequential map over the cases |
| `Inventory.Progress.OnCompletion` | xtask/src/test262.rs:1024-1030 | the live counters count exactly the outcomes seen so far |
| `Inventory.CountsConserve` | xtask/src/test262.rs:1024-1030 | passed, failed and runner errors add up to completed |
| `Inventory.Summarize` | xtask/src/test262.rs:1040-1050 | succeeds exactly without runner errors, with exact counts and the failures in case order; otherwise the first error in case order is returned |
| `Inventory.CountersSequential` | xtask/src/test262.rs:1014-1039 | the outcomes received, in whatever order, count like those of the sequential run |
| `Inventory.ProgressSequential` | xtask/src/test262.rs:1014-1039 | the live counter object, after every result received in any run, holds the counts of the sequential run |
| `Inventory.ExecuteInventory` | xtask/src/test262.rs:1014-1051 | in every completed run, for every job count and interleaving, live counters and summary are those of executing the cases one after another |
| `StackAnalysis.Propagate` | crates/fusor-bytecode/src/verifier/stack.rs:299-349 | an edge records a first depth, keeps an equal one, defers a finally entry and otherwise refuses with nothing changed |
| `StackAnalysis.AnalyzeOrdinaryStack` | crates/fusor-bytecode/src/verifier/stack.rs:25-297 | it accepts if and only if the depths of first arrivals, breadth first, are respected by every checked edge within the limits; on success each depth is that of some walk, the size is the exact greatest depth and each reachable instruction was evaluated once; it accepts with depths that hold on every walk if and only if some depths are respected by every edge, deferred ones included; each refusal is true of some walk and a join refusal names a checked edge |
| `StackDepth.CertifiedRun` | crates/fusor-bytecode/src/verifier/stack.rs:25-297 | on every walk along checked edges each instruction is entered at its recorded depth and may be entered there |
| `StackDepth.TakenSide` | crates/fusor-bytecode/src/verifier/stack.rs:127-234 | the taken side of a split is entered one value deeper for gosub and resolved reads and deletions, two for resolved references and otherwise as deep as the other side |
| `StackDepth.Forced` | crates/fusor-bytecode/src/verifier/stack.rs:25-297 | every walk gives an instruction the depth recorded by every assignment that all edges respect |
| `StackDepth.DepthsHoldExactly` | crates/fusor-bytecode/src/verifier/stack.rs:214-235 | the depths of an accepted body hold on every walk if and only if the body has depths that every edge respects, deferred ones included |
| `StackDepth.NothingDeferredExact` | crates/fusor-bytecode/src/verifier/stack.rs:214-235 | without gosub, or without the empty-exit rule, a body is accepted if and only if any respected depths exist within the limit, and then they hold |
| `StackDepth.AcceptedRuns` | crates/fusor-bytecode/src/verifier/stack.rs:25-297 | where they hold no walk pops below zero or rises above the computed size, and evaluations number the reached instructions |
| `Subroutines.DeferredJoinDiffers` | crates/fusor-bytecode/src/verifier/stack.rs:335-335 | the analysis accepts a body of two gosubs at different depths, and the depths that it returns do not hold: its subroutine is entered at two depths |
| `Subroutines.OrderMatters` | crates/fusor-bytecode/src/verifier/stack.rs:323-335 | a body whose first call is too shallow for its subroutine is refused although other depths are respected by every checked edge |
| `Subroutines.ExecutionsHoldExactly` | crates/fusor-bytecode/src/verifier/stack.rs:214-252 | on executions that return through the pushed address, certified depths hold if and only if every subroutine is entered at its recorded depth and returns at the depth with which it was called |
| `Subroutines.BalancedExactly` | crates/fusor-bytecode/src/verifier/stack.rs:25-297 | for an accepted body with depths that every edge respects, they hold on every execution if and only if every subroutine returns at the depth with which it was called |
| `Subroutines.ExecutionsSafe` | crates/fusor-bytecode/src/verifier/stack.rs:25-297 | where they hold no execution misses an operand or exceeds the computed size |
| `Subroutines.UnbalancedReturnDiffers` | crates/fusor-bytecode/src/verifier/stack.rs:251-252 | the analysis accepts a body whose subroutine leaves a value below its return address; its depths hold on every walk and fail on the execution that returns |
| `PinnedMessage.NextSegment` | xtask/src/parser_differential.rs:470-487 | splits a format into its literal prefix and first placeholder, with a strictly shorter rest |
| `PinnedMessage.MatchesPinnedMessage` | xtask/src/parser_differential.rs:443-460 | true exactly when some substitution, any string for `%s` and `%.*s` and one character for `%c`, turns the pinned text into the observed one |
| `PinnedMessage.MessageExactly` | xtask/src/parser_differential.rs:432-460 | the condition of the matcher, of the format as written: it reads in pieces, and the observed text is what may stand for each, one character for `%c`, any text for `%s` and `%.*s`, and otherwise the character itself |
| `Manifest.IndexFixtures` | xtask/src/parser_differential.rs:927-942 | indexes the fixtures by path and refuses exactly repeated paths |
| `Manifest.ManifestValidation.ValidateCase` | xtask/src/parser_differential.rs:960-1062 | accepts exactly the first declaration of an existing fixture that agrees with it and the tables, cites distinct pinned evidence and records a difference, under a new id, exactly when expectations differ; the coverage grows by exactly this case, and each refusal names a condition that fails |
| `ManifestCase.ParseNames` | xtask/src/parser_differential.rs:1324-1374 | collects exactly the nonempty lists of known names without repetition |
| `ManifestCase.ValidateClaims` | xtask/src/parser_differential.rs:1222-1259 | passes only when families are those of the claims and every claim allows expectation and goal; otherwise names the offender |
| `ManifestCase.ParseProductions` | xtask/src/parser_differential.rs:1382-1430 | accepts no production for a rejected fixture, and for an accepted one exactly the nonempty lists of distinct productions that the goal admits |
| `ManifestCase.ValidateDiagnostic` | xtask/src/parser_differential.rs:1070-1127 | passes exactly a reachable diagnostic whose claims are made, for exactly the rejected fixtures |
| `ManifestCase.ValidateDifference` | xtask/src/parser_differential.rs:1517-1586 | passes exactly a new, well-directed record naming its fixture when expectations differ and none when they agree; a refusal says which failed |
| `ManifestCase.ValidateFields` | xtask/src/parser_differential.rs:992-1043 | accepts exactly when all fields agree with fixture, tables and ids in use; each refusal is true |
| `Manifest.ValidateHeader` | xtask/src/parser_differential.rs:874-909 | accepts exactly schema 1, the pinned release and eval policy, and a nonempty list of cases |
| `Evidence.ParseExact` | xtask/src/parser_differential.rs:1463-1515 | the parser returns a reference if and only if the text writes that reference: optional prefix, clean pinned path, optional line or ascending range of positive 64-bit lines |
| `Evidence.LineExactly` | xtask/src/parser_differential.rs:1507-1515 | a line is the canonical decimal of a positive 64-bit number |
| `Evidence.PinnedExactly` | xtask/src/parser_differential.rs:1463-1492 | the pinned paths are three files and every list of clean names below the directory of tests |
| `Evidence.ValidateEvidence` | xtask/src/parser_differential.rs:1432-1461 | accepts exactly nonempty lists of pinned references none of which repeats, however written |
| `Manifest.ManifestValidation.Finish` | xtask/src/parser_differential.rs:1129-1220 | accepts exactly when every fixture is declared and every table is covered, and reports the full table sizes, the polarity count included |
| `Manifest.Load` | xtask/src/parser_differential.rs:681-697 | a manifest loads exactly when its header is right and the ledger is closed |
| `Manifest.ClosedBijection` | xtask/src/parser_differential.rs:681-697 | in a loaded manifest cases and fixtures are in bijection and agree |
| `Manifest.ClosedDiagnostics` | xtask/src/parser_differential.rs:1064-1127 | a loaded manifest gives a reachable diagnostic to exactly the oracle-rejected fixtures, one each |
| `Manifest.ClosedProductions` | xtask/src/parser_differential.rs:1382-1430 | in a loaded manifest every pinned production is exercised by an accepted fixture under a goal that admits it |

## Left out

- WorkerProtocol.ParallelIsSequential: takes the result of a case as a function of its index; timeouts that make a case's outcome depend on the schedule are outside the model. An empty case list returns at once and starts no protocol.
- StackAnalysis.AnalyzeOrdinaryStack: takes stack effects and successors of instructions as values; the opcode tables that yield them, the structural checks before it and the typed pass after it, to which finally entries are deferred, are not part of this model.
- Manifest.ManifestValidation.ValidateCase: takes a case as read; the JSON shape, the spelling of goals, expectations and directions, and the clean-path rule are not part of this model, and paths are compared as text. Of a refused list or record it says which field, not which item.
- Manifest.Load: takes header and cases as read from JSON, and fixtures as collected; reading the corpus and checking fixture sources is not part of this model. It does not say why a manifest is refused.
- GraphBudget.Preflight: states the sums by code units for functions whose strings are in canonical storage, which is the only storage that their constructor makes.
- Allocation failure, everywhere: reservations are taken to succeed.
- Dynamic argument counts and the structural and typed verifiers of single bodies: their results enter the function records as counts, layouts and entry depths.
- Instruction disassembly, error texts and display formatting.
- Function header flags and their constructors: single bit tests.
- JavaScript parsing and execution, and the standard library's shortest printing of binary64 values.
- Process spawning, timeouts, temporary directories, oracle invocation and option parsing of the harness.
- The manifest readers of the control-flow and dynamic-function differentials: thin checks over JSON values.
- The special texts for NaN, infinities and zero: four constant cases before the decimal is rendered.
