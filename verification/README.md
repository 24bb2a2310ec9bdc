# MicroCard host tool-chain: a Dafny model

MicroCard compiles .NET assemblies into signed MC04 packages for a card runtime. This project
models the host side of that path and proves what it is trusted for: the two code transformations,
the version-constraint evaluators, the DER and CBOR codecs, the call-graph analyses, the bundle load
order and the metadata heaps. Every source function that can throw, or return `false` beside an out
parameter, yields `Option` here, and its contract says exactly when it succeeds. The instruction decoder
and the walkers beside it have a third outcome: on some bodies their loop never ends.

| files | component |
|---|---|
| `Cil`, `CilEncoding`, `CilReading`, `Compaction`, `CompactCil`, `Inspect`, `CompactionCorrect`, `CompactionRuns`, `CilWalkers` | the instruction decoder, the octets it inverts and what it does on a negative switch count, the token and branch compactor, the independent reader, and the proof that compaction preserves listings and runs |
| `Splicing`, `TransactionScope`, `ScopeSplice`, `ScopeRuns`, `ScopeMeaning`, `ScopeExact`, `ScopeDiscipline`, `ScopeLocals`, `ScopeExample`, `ScopeCompiled` | cutting a `using (new TransactionScope())` out of a body and splicing Begin and Commit or Abort in, and compacting the result |
| `CallGraph`, `CallDepth`, `CallAllocation`, `TransactionReach`, `TransactionReachExact` | the depth-first analyses over call graphs |
| `Versions`, `NormalForm`, `ConstraintGrammar`, `VersionConstraint`, `WrittenTerms`, `WrittenConstraints` | the two evaluators of version constraints, and what a written constraint means |
| `Tlv`, `Der`, `DerValues`, `DerSetOf`, `DerWriters` | DER headers, validation, the values a region spells, SET OF order and the integer writer |
| `Utf8`, `Cbor`, `CborReaders`, `CborCanonical` | the deterministic CBOR subset |
| `Bundle`, `BundleOrder` | the bundle load order |
| `Heaps`, `MetadataTables`, `TableInspector`, `TableReading`, `HeapTables` | string and blob heaps, the table section indexed into them, and the inspector that lists it |
| `Wrappers`, `Bytes` | `Option`, octets and fixed-width integers |

## Main results

- **Decoding.** An instruction is read exactly where its octets stand: the opcode, then its token, the
  distances of its targets from its end, or its immediate. What `Decode` lists is the body from left to
  right exactly when reading it comes to no switch with a negative count; on such a count its cursor goes
  back, and the model follows it, into the octets it came from or round for ever. Where it does not throw,
  the two token walkers take its turns.
- **Compaction.** `CompactCil` returns exactly on bodies that decode, stay in the profile and branch to
  instructions; decoding its output independently lists the input instructions with tokens and targets
  mapped and `Array.Empty` expanded, every run of the input is a run of the output, and every run of the
  output is one of the input or half an `Array.Empty` call ahead of one. A body without tokens stays as it
  is. Output never grows, and every relocated distance shrinks towards zero, so the one-octet relocation
  cannot overflow.
- **Transaction scopes.** Every canonical scope is accepted, whatever it holds; the compiled ones are,
  whichever local holds the scope, however its loads, stores and branches are encoded and whether it is
  completed. On every accepted body read left to right the rewritten octets decode to the kept instructions
  with branches moved, and in every run each inserted call executes at most once. If no projected member is
  called before the constructor or behind the handler, the transaction is open exactly between the two calls
  in every run. Every run matches one of the original, with the same states and the same outcome, exactly
  when no way through the rewritten body strays: comes around the scope to a newobj of another scope or to a
  call of a projected member, or behind the handler to a load of the scope's local with no store to it
  before on that way. All this holds of the compacted octets too, for all interpreters that agree on the
  compact tokens, and such interpreters exist.
- **Version constraints.** A constraint is written from signs, numbers, wildcards and separators, and says
  by itself which versions it admits; the direct evaluator accepts exactly the written constraints whose bounds
  fit 16 bits, Normalize those of them with at most eight alternatives that all leave room, and both admit
  what is written. The normalized ranges admit a version exactly when the direct
  evaluator does; they are the only sorted, mutually untouching list with that coverage, so neither the
  order of the alternatives nor an unstable sort shows.
- **DER.** Validation with an explicit stack accepts exactly the regions that spell values (tags, lengths,
  booleans, integers, bit strings, object identifiers in their only form) nesting no deeper than the stack;
  encodings are unique and prefix-free; the SET OF check is the standard's zero-padded order.
- **CBOR.** Decoding inverts encoding on exactly the values within the limits and accepts nothing else.
- **Call graphs.** The depth diagnostic, the allocation totals and (without mutual recursion) the
  transaction searches equal plain graph definitions. For the last of these the exact condition is proved.
- **Bundles and heaps.** The load order is the least topological order; a refusal means no order exists. The
  inspector, by the columns of the format's schema alone, lists for the written section exactly the
  program's records; every heap index fits the width chosen beforehand, only the first row of a list can be
  too large for its column, and exactly when is proved.

Where the code does not do what one would expect, a lemma gives the input:

- `TransactionReachExact.ConflictMissed`: mutual recursion lets a method that both begins a transaction
  and writes hardware pass; `RowOrderFaithfulIffSimple` says which call graphs are safe, and
  `FaithfulIffSimple` that no other order of the method table makes more of them safe.
- `DerWriters.BareSequenceAccepted`: the scratch-free sequence writer's check accepts an element tagged
  16 or 17 without the constructed bit; `PrimitiveRegionValidIff` says that nothing else slips through.
- `ScopeExample.ControlSurvives`: docs/TRANSACTIONS.md supports the scope API only in one using
  declaration, but control calls before the scope or after its handler are not looked at, so a second
  Dispose behind the handler is accepted and stays; `ScopeDiscipline.OnlyInsertedControls` says that the
  rewritten body is free of them exactly when those two segments were.
- `ScopeExample.LaterLoadChangesMeaning`: nor is a load of the scope's local behind the handler, where the
  rewritten body does what no run of the original does.
- `ScopeExample.OtherDisposeChangesMeaning`: a scope that is not completed makes Abort of IDisposable.Dispose
  in the whole assembly, so disposing of another object around the scope is accepted and changes the meaning.
  `ScopeExact.MeaningPreservedIff` is the exact condition for this and the load.
- `CilReading.CountReadAsCode` and `CilReading.CountLoopsForEver`: Decode lists five instructions in
  `45 FF FF FF FF`, and never returns on `00 00 00 45 FE FF FF FF`; `ListedLeftToRightIff` says that only
  a negative switch count does this.
- `MetadataTables.LastListDoesNotStart`: a program with 255 fields of which the last type owns none cannot be
  written, because that type's list would start at row 256 in a one-octet column; `StartsFitIff` says that
  this, the same with methods, and more than 65534 rows are all that cannot.

## Model

| member | source | states |
|---|---|---|
| Cil.Decode | managed/MicroCard.Tool/Mc04Writer.Cil.cs:12-56 | the instruction list, an exception, or a loop without end, as the cursor goes: back on a negative switch count, forward on everything else; an operand that is no entity token and a switch target past 32 bits throw |
| Cil.DecodeOperand | managed/MicroCard.Tool/Mc04Writer.Cil.cs:19-53 | one turn of the loop: opcode, operand, absolute branch targets, truncation, token check, and where the cursor goes |
| Cil.DecodeSwitch | managed/MicroCard.Tool/Mc04Writer.Cil.cs:37-45 | a switch with its table, or with a negative count, which moves the cursor backwards |
| Cil.SwitchTargets | managed/MicroCard.Tool/Mc04Writer.Cil.cs:37-45 | no targets for a count of zero or less; otherwise they are relative to the end of the table, which lies in the body, and fit 32 bits |
| Cil.DecodePrefix | managed/MicroCard.Tool/Mc04Writer.Cil.cs:16-54 | what has been read stays read, whatever follows |
| Cil.DecodeFills | managed/MicroCard.Tool/Mc04Writer.Cil.cs:12-56 | the decoded instructions tile the whole body |
| CilEncoding.DecodeIffEncoding | managed/MicroCard.Tool/Mc04Writer.Cil.cs:16-54 | an instruction is decoded at an offset exactly where its octets stand: the opcode, then the token, the distances of its targets from its end in one octet, four, or a counted table, or the immediate with the number of a local or argument in it |
| CilEncoding.DecodesIffEncoded | managed/MicroCard.Tool/Mc04Writer.Cil.cs:12-56 | instructions are what a stretch decodes to exactly when it is their octets end to end |
| CilEncoding.LittleEndianWord | managed/MicroCard.Tool/Mc04Writer.Cil.cs:22-45 | the four-octet words are the signed 32-bit numbers, least significant octet first |
| CilEncoding.KnownOpcodes | managed/MicroCard.Tool/Mc04Writer.Cil.cs:19-21 | the opcodes that are not refused as unknown |
| CilEncoding.OperandLengths | managed/MicroCard.Tool/Mc04Writer.Cil.cs:24-46 | which opcodes have operands of no, one, two, four and eight octets |
| CilEncoding.OperandKinds | managed/MicroCard.Tool/Mc04Writer.Cil.cs:24-46 | which opcodes take tokens, locals, short and long branches and tables |
| CilReading.ReadsForward | managed/MicroCard.Tool/Mc04Writer.Cil.cs:16-54 | where no switch with a negative count is reached, each of the three loops is the left-to-right reading |
| CilReading.ListedLeftToRightIff | managed/MicroCard.Tool/Mc04Writer.Cil.cs:37-45 | what Decode lists is the body from left to right exactly where no such switch is reached |
| CilReading.SameTurns | managed/MicroCard.Tool/Mc04Writer.Cil.cs:65-86 | where Decode does not throw, CilTokens and CilCalls take the same turns, and only an operand form they do not know stops them earlier |
| CilReading.EndlessIff | managed/MicroCard.Tool/Mc04Writer.Cil.cs:16-54 | the third outcome means exactly that the loop body runs any number of times |
| CilReading.CountReadAsCode | managed/MicroCard.Tool/Mc04Writer.Cil.cs:39-44 | a body whose switch count is read again as four instructions |
| CilReading.CountLoopsForEver | managed/MicroCard.Tool/Mc04Writer.Cil.cs:39-44 | a body on which Decode does not return |
| CilWalkers.CilTokens | managed/MicroCard.Tool/Mc04Writer.Cil.cs:65-86 | reports exactly the tokens of the instructions it steps over, backwards too, in order; throws exactly on a truncated or unknown instruction, an operand form it does not know, or a token that is no entity, and loops exactly where nothing stops it |
| CilWalkers.SupportedIff | managed/MicroCard.Tool/Mc04Writer.Cil.cs:69-84 | the operand forms the walkers do not know, by opcode |
| CilWalkers.CilCalls | managed/MicroCard.Tool/Mc04Writer.Transactions.cs:302-326 | the same walk, reporting exactly the call, callvirt and newobj tokens; tokens of fields and types are not looked at |
| CompactCil.CompactCil | managed/MicroCard.Tool/Mc04Writer.Cil.cs:88-158 | returns exactly when the body decodes, every opcode is allowed, every token resolves and every branch lands on an instruction; the result is the relocated assembly of the whole list |
| CompactCil.CompactInstruction | managed/MicroCard.Tool/Mc04Writer.Cil.cs:95-147 | the first pass writes one instruction with zeroed branch operands and records its holes |
| CompactCil.PatchAll | managed/MicroCard.Tool/Mc04Writer.Cil.cs:149-157 | the second pass fills every hole, failing only on a target that is no instruction: the checked one-octet conversion never throws |
| CompactCil.PatchArray | managed/MicroCard.Tool/Mc04Writer.Cil.cs:153-155 | one patch changes its own octets in place and no others |
| Compaction.FillingAssembles | managed/MicroCard.Tool/Mc04Writer.Cil.cs:114-157 | filling the holes of the first pass yields each instruction encoded with its relocated distances |
| Compaction.FillSwitchOf | managed/MicroCard.Tool/Mc04Writer.Cil.cs:131-140 | all holes of a switch are relocated against the end of its table |
| Compaction.OffsetsSound | managed/MicroCard.Tool/Mc04Writer.Cil.cs:95 | the offset dictionary holds exactly the instruction starts, each with its output offset |
| Compaction.RelocationContracts | managed/MicroCard.Tool/Mc04Writer.Cil.cs:101-145 | between any two instructions the output distance is at most the input distance |
| Compaction.BranchContracts | managed/MicroCard.Tool/Mc04Writer.Cil.cs:150-155 | every re-patched distance keeps its sign and never grows |
| Compaction.WrappedTargetIsNoInstruction | managed/MicroCard.Tool/Mc04Writer.Cil.cs:123-138 | a 32-bit wrap of a branch target cannot reach an instruction, so the unbounded sum decides the same |
| CompactionCorrect.InspectorReadsCompactedCode | scripts/mcinspect.py:62-96 | decode_cil lists the compacted body as the input instructions with mapped tokens and targets and Array.Empty as ldc.i4.0, newarr |
| CompactionCorrect.CompactionShrinks | managed/MicroCard.Tool/Mc04Writer.Cil.cs:88-158 | the output is never longer than the input |
| CompactionCorrect.TokenlessStays | managed/MicroCard.Tool/Mc04Writer.Cil.cs:88-158 | a compactable body without tokens compacts to itself |
| CompactionCorrect.NegativeNotCompactable | managed/MicroCard.Tool/Mc04Writer.Cil.cs:133 | a body in which reading comes to a negative switch count is never compacted |
| CompactionRuns.RunSimulated | managed/MicroCard.Tool/Mc04Writer.Cil.cs:88-158 | from matching positions every input run of n steps is an output run of n to 2n steps |
| CompactionRuns.StepsCovered | managed/MicroCard.Tool/Mc04Writer.Cil.cs:88-158 | and every output run of t steps stands where an input run stands, or one step further, between the two halves of an expanded Array.Empty call |
| CompactionRuns.CompactionPreservesRuns | managed/MicroCard.Tool/Mc04Writer.Cil.cs:88-158 | started at offset 0, the listed output runs as the input does, for all runs and all interpretations of instructions |
| Inspect.DecodeCil | scripts/mcinspect.py:62-96 | lists exactly the instructions of the compact code and raises on any unknown opcode, token or target |
| Inspect.SchemaIsProfile | format/mc04-opcodes.json:6-1163 | the opcodes and operands the inspector reads by are exactly those the writer allows, with the operands it writes |
| Inspect.CheckTargets | scripts/mcinspect.py:94-95 | accepts exactly the listings whose every target starts an instruction |
| Splicing.DecodeMoved | managed/MicroCard.Tool/Mc04Writer.Transactions.cs:95-103 | the same octets at another offset decode to the same instruction, shifted |
| Splicing.DecodesMoved | managed/MicroCard.Tool/Mc04Writer.Transactions.cs:97-102 | a copied segment decodes to the shifted segment |
| TransactionScope.ScopeRewriter.RewriteTransactionScope | managed/MicroCard.Tool/Mc04Writer.Transactions.cs:9-104 | on every body, returns exactly when Decode does and there is no region and no control token, or one region and the canonical parts around it, whose octets can be written; gives the rewritten octets and projections, and leaves the projections alone on a body it does not recognise |
| TransactionScope.ScopeRewriter.ProjectTransaction | managed/MicroCard.Tool/Mc04Writer.Transactions.cs:106-116 | projections never conflict, because a member's control value fixes its projected name |
| TransactionScope.FindScope | managed/MicroCard.Tool/Mc04Writer.Transactions.cs:24-70 | cuts the parts out of the list by the region, and accepts them exactly when they are canonical |
| TransactionScope.CheckScope | managed/MicroCard.Tool/Mc04Writer.Transactions.cs:32-69 | decides all conditions on the cut parts: opening, exit, completion, disposal, payload and surroundings |
| TransactionScope.CheckPayload | managed/MicroCard.Tool/Mc04Writer.Transactions.cs:72-81 | the payload neither controls, touches the scope local, escapes nor branches out |
| TransactionScope.CheckOutside | managed/MicroCard.Tool/Mc04Writer.Transactions.cs:82-89 | code before and after the scope branches only within its own segment |
| TransactionScope.ScopeIsFound | managed/MicroCard.Tool/Mc04Writer.Transactions.cs:24-89 | every canonical scope of a body read left to right is cut out, part for part, and accepted |
| TransactionScope.FoundIsScope | managed/MicroCard.Tool/Mc04Writer.Transactions.cs:24-89 | and what is accepted there is one |
| TransactionScope.RewritableIffScope | managed/MicroCard.Tool/Mc04Writer.Transactions.cs:9-104 | without a negative switch count the rewrite returns exactly on bodies that decode without an exception and have no region and no control token, or the one canonical scope |
| TransactionScope.ValidateBranches | managed/MicroCard.Tool/Mc04Writer.Transactions.cs:187-192 | every branch target of an instruction lies in the segment |
| TransactionScope.ScopePartition | managed/MicroCard.Tool/Mc04Writer.Transactions.cs:32-60 | prefix, scaffolding, payload, handler and tail tile the body |
| ScopeSplice.SplicedLayout | managed/MicroCard.Tool/Mc04Writer.Transactions.cs:95-103 | the kept octets lie unchanged at their new places, and the octets at the two insertion points are the projected calls |
| ScopeSplice.SpliceDecodes | managed/MicroCard.Tool/Mc04Writer.Transactions.cs:95-103 | the spliced octets decode to the kept instructions, every branch on the moved image of its target |
| ScopeMeaning.RewritePreservesMeaning | managed/MicroCard.Tool/Mc04Writer.Transactions.cs:47-102 | when no way through the rewritten code strays, every run of it matches a run of the original with the same state and the same transaction outcome, for every state, every effect of the instructions and every set of members the assembly projects besides |
| ScopeMeaning.SyncedStep | managed/MicroCard.Tool/Mc04Writer.Transactions.cs:41-103 | one rewritten step is one or more original steps, the scaffolding included, except where another scope is made, a projected member is called, or the scope is loaded once more |
| ScopeExact.StrayChangesMeaning | managed/MicroCard.Tool/Mc04Writer.Transactions.cs:82-103 | when some way does stray, there are effects, a state and a number of rewritten steps that no run of the original matches |
| ScopeExact.MeaningPreservedIff | managed/MicroCard.Tool/Mc04Writer.Transactions.cs:24-104 | so the rewrite of an accepted body preserves meaning exactly when no way through the rewritten octets strays |
| ScopeDiscipline.InsertedCallsRunOnce | managed/MicroCard.Tool/Mc04Writer.Transactions.cs:72-102 | in every run of the rewritten octets of every scope in a body read left to right, Begin and the closing call execute at most once, with only payload instructions between |
| ScopeDiscipline.TransactionOpenOnlyInPayload | managed/MicroCard.Tool/Mc04Writer.Transactions.cs:72-102 | when nothing around the scope calls a projected member, the transaction is open in every run exactly in the payload and at the closing call, has the scope's outcome behind it, and is never open at a ret |
| ScopeDiscipline.OnlyInsertedControls | managed/MicroCard.Tool/Mc04Writer.Transactions.cs:72-89 | the rewritten body names other control members exactly when the unchecked code around the scope did |
| ScopeExample.ShortestScopeIsRewritten | managed/MicroCard.Tool/Mc04Writer.Transactions.cs:9-104 | the shortest compiled scope is accepted and becomes call Begin, call Abort, ret |
| ScopeLocals.LocalIff | managed/MicroCard.Tool/Mc04Writer.Transactions.cs:216-227 | an instruction stores or loads local n exactly when it is one of the three encodings of that: 0A+n or 06+n below 4, 13 n or 11 n, FE 0E or FE 0C with two octets |
| ScopeLocals.CompiledScopesAreRewritten | managed/MicroCard.Tool/Mc04Writer.Transactions.cs:9-104 | every compiled scope that holds no code, for every local, every encoding of its stores, loads and branches, completed or not, is accepted and becomes call Begin, call Commit or Abort, ret |
| ScopeLocals.ScopeIsAccepted | managed/MicroCard.Tool/Mc04Writer.Transactions.cs:24-89 | every canonical scope of a body that decodes without an exception is accepted, part for part, with any payload and surroundings |
| ScopeExample.ControlSurvives | managed/MicroCard.Tool/Mc04Writer.Transactions.cs:82-89 | an accepted body whose Dispose call behind the handler is still in the rewritten octets |
| ScopeExample.LaterLoadChangesMeaning | managed/MicroCard.Tool/Mc04Writer.Transactions.cs:82-89 | an accepted body that loads the scope behind the handler, and a run of its rewritten octets that no run of the original matches |
| ScopeExample.OtherDisposeChangesMeaning | managed/MicroCard.Tool/Mc04Writer.Transactions.cs:91-116 | an accepted body that disposes of another object behind a scope it does not complete, whose meaning is not preserved, because the member it calls was projected |
| ScopeCompiled.CompilesWithoutAddresses | managed/MicroCard.Tool/Mc04Writer.Cil.cs:99 | no instruction kept from a body that goes on to compile takes an address, so loads and stores are all the accesses to the scope's local |
| ScopeCompiled.CompiledScopePreservesMeaning | managed/MicroCard.Tool/Mc04Writer.Cil.cs:88-158 | rewriting and compacting one after the other: when no way strays, every rewritten run has an original and a compacted run with its state, transaction and place |
| ScopeCompiled.CompiledStrayChangesMeaning | managed/MicroCard.Tool/Mc04Writer.Cil.cs:88-158 | when some way does, there are effects and an interpreter of the compacted octets that agrees with them, and a compacted run that no run of the original matches |
| ScopeCompiled.AgreeingInterpreter | managed/MicroCard.Tool/Mc04Writer.Cil.cs:100-146 | effects that take Array.Empty as ldc.i4.0 and newarr have an interpreter of the compacted octets that agrees with them: compaction loses nothing they look at |
| ScopeCompiled.CompiledMeaningPreservedIff | managed/MicroCard.Tool/Mc04Writer.Cil.cs:88-158 | every step of every compacted run is matched by the original, but for the middle of an expanded Array.Empty, exactly when no way through the rewritten octets strays |
| ScopeCompiled.OpenOnlyInCompiledPayload | managed/MicroCard.Tool/Mc04Writer.Transactions.cs:72-102 | at every step of every run of the compacted octets, as the inspector lists them, the transaction is open exactly between the two compiled calls, and never at a ret |
| CallDepth.CallGraphAnalysis.AnalyzeCallGraph | managed/MicroCard.Analyzers/MicroCardProfileAnalyzer.CompilationLimits.cs:294-334 | reports from a frame exactly when a chain reaching 33 frames runs through it, truthfully as recursion or depth, and leaves the active set as it was |
| CallDepth.CallGraphAnalysis.AnalyzeCallGraphs | managed/MicroCard.Analyzers/MicroCardProfileAnalyzer.CompilationLimits.cs:282-292 | a root is reported exactly when some in-assembly call walk of 33 methods starts there |
| CallDepth.PathCloses | managed/MicroCard.Analyzers/MicroCardProfileAnalyzer.CompilationLimits.cs:310-317 | a call back into the active set is real recursion through the current method |
| CallDepth.TooDeepIsTrue | managed/MicroCard.Analyzers/MicroCardProfileAnalyzer.CompilationLimits.cs:318-325 | a depth report has 33 different methods behind it |
| CallGraph.CycleIsDeep | managed/MicroCard.Analyzers/MicroCardProfileAnalyzer.CompilationLimits.cs:310-325 | recursion makes call walks of every length |
| CallAllocation.AllocationAnalysis.TryCallAllocationBytes | managed/MicroCard.Analyzers/MicroCardProfileAnalyzer.CompilationLimits.cs:203-236 | succeeds exactly when the whole call tree is finite and within the direct limit, with its saturated sum; every memo entry is such a sum whatever was asked before |
| CallAllocation.HasTreeIff | managed/MicroCard.Analyzers/MicroCardProfileAnalyzer.CompilationLimits.cs:208-234 | that is: no reachable recursion and no reachable method over 16384 bytes |
| CallAllocation.CostsIff | managed/MicroCard.Analyzers/MicroCardProfileAnalyzer.CompilationLimits.cs:203-236 | a method comes to its own entry, zero without one and at most 16384, and then the totals of its calls, stopping at the largest 64-bit number |
| CallAllocation.LeafCosts | managed/MicroCard.Analyzers/MicroCardProfileAnalyzer.CompilationLimits.cs:215-222 | without calls it comes to its own entry |
| CallAllocation.TreeUnique | managed/MicroCard.Analyzers/MicroCardProfileAnalyzer.CompilationLimits.cs:223-232 | a method has one call tree, hence one total |
| CallAllocation.CycleHasNoTree | managed/MicroCard.Analyzers/MicroCardProfileAnalyzer.CompilationLimits.cs:210-214 | a method on a cycle is never given a total |
| TransactionReach.Searcher.Reaches | managed/MicroCard.Tool/Mc04Writer.Transactions.cs:234-270 | the memoised search with its active set, against its functional form |
| TransactionReach.ValidateTransactions | managed/MicroCard.Tool/Mc04Writer.Transactions.cs:227-281 | the loop over the method table, against its functional form |
| TransactionReachExact.SearchSound | managed/MicroCard.Tool/Mc04Writer.Transactions.cs:234-270 | on any graph and after any queries a true answer is right |
| TransactionReachExact.SearchExact | managed/MicroCard.Tool/Mc04Writer.Transactions.cs:234-270 | without mutual recursion every answer and every memo entry equals true reachability |
| TransactionReachExact.OutcomeSound | managed/MicroCard.Tool/Mc04Writer.Transactions.cs:273-280 | nothing is rejected or flagged without cause on any graph |
| TransactionReachExact.OutcomeExact | managed/MicroCard.Tool/Mc04Writer.Transactions.cs:273-280 | without mutual recursion it throws exactly when some method reaches both, and flags exactly the methods that reach control |
| TransactionReachExact.CycleMisleads | managed/MicroCard.Tool/Mc04Writer.Transactions.cs:236-250 | mutually recursive methods can be given a control call so that a method that reaches it is not flagged, whatever the order of the table |
| TransactionReachExact.FaithfulIffSimple | managed/MicroCard.Tool/Mc04Writer.Transactions.cs:227-281 | in any one order of the table, the validation is right for all placements of control and output calls exactly when no two methods call each other in a cycle |
| TransactionReachExact.RowOrderFaithfulIffSimple | managed/MicroCard.Tool/Mc04Writer.Transactions.cs:273-280 | in particular in the order of the rows, which is the one the source takes |
| TransactionReachExact.ConflictMissed | managed/MicroCard.Tool/Mc04Writer.Transactions.cs:273-280 | a concrete table with mutual recursion whose conflict passes |
| Versions.KeyOrder | managed/MicroCard.Build/VersionConstraint.cs:19-27 | CompareTo is the lexicographic order of four components |
| Versions.MatchIsCut | managed/MicroCard.Build/VersionConstraint.cs:49-64 | a range admits a version exactly between its two cut points |
| Versions.IntersectIsCut | managed/MicroCard.Build/VersionConstraint.cs:192-218 | intersection takes the later lower and the earlier upper cut |
| Versions.EmptyIsCut | managed/MicroCard.Build/VersionConstraint.cs:220-226 | a range is Empty exactly when its cuts do not ascend |
| Versions.CompareMinimumIsCut | managed/MicroCard.Build/VersionConstraint.cs:228-234 | the sort order is the order of lower cuts |
| Versions.TouchesIsCut | managed/MicroCard.Build/VersionConstraint.cs:236-242 | ranges touch exactly when no cut lies between them |
| Versions.UnionIsCut | managed/MicroCard.Build/VersionConstraint.cs:244-256 | the union of touching ranges spans both |
| Versions.CutsIdentify | managed/MicroCard.Build/VersionConstraint.cs:32-47 | equal cuts mean equal well-formed ranges |
| Versions.TryUpperBound | managed/MicroCard.Build/VersionConstraint.cs:373-402 | the upper bound increments the component the operator and the number of parts select, failing on overflow |
| Versions.BoundedInterval | managed/MicroCard.Build/VersionConstraint.cs:373-402 | caret, tilde and wildcard intervals hold exactly the versions from the lower bound that agree with it up to that component |
| NormalForm.SortByMinimum | managed/MicroCard.Build/VersionConstraint.cs:120 | a permutation sorted by minimum |
| NormalForm.Merge | managed/MicroCard.Build/VersionConstraint.cs:121-129 | sorted ranges become sorted, mutually untouching ranges with the same coverage |
| NormalForm.CanonicalUnique | managed/MicroCard.Build/VersionConstraint.cs:121-129 | two such lists with the same coverage are equal |
| NormalForm.NormalFormIgnoresOrder | managed/MicroCard.Build/VersionConstraint.cs:120-129 | the merged list does not depend on the order of the alternatives or on ties |
| NormalForm.NormalFormMatches | managed/MicroCard.Build/VersionConstraint.cs:120-129 | some merged range admits a version exactly when some alternative does |
| ConstraintGrammar.ReadComponent | managed/MicroCard.Build/VersionConstraint.cs:423-438 | the maximal digit run as a 16-bit number without superfluous zeros, or failure |
| ConstraintGrammar.ReadParts | managed/MicroCard.Build/VersionConstraint.cs:321-345 | dotted components and a trailing wildcard, against the grammar |
| ConstraintGrammar.ReadTerm | managed/MicroCard.Build/VersionConstraint.cs:296-371 | the direct parser accepts exactly the grammar's terms and decides the term on the candidate |
| ConstraintGrammar.ReadNormalizedTerm | managed/MicroCard.Build/VersionConstraint.cs:132-190 | the interval parser accepts exactly the same terms and yields their range |
| ConstraintGrammar.IntervalMatchesTerm | managed/MicroCard.Build/VersionConstraint.cs:172-189 | a term's range admits a version exactly when the term's direct test does |
| ConstraintGrammar.TryReadVersion | managed/MicroCard.Build/VersionConstraint.cs:404-421 | a version text is two to four dotted components, at most 31 characters, and nothing more |
| WrittenTerms.TermRead | managed/MicroCard.Build/VersionConstraint.cs:296-347 | a written term (a sign, two to four dotted numbers, perhaps a wildcard at the end) is read where it stands, unless the number to be incremented is 65535 |
| WrittenTerms.TermWritten | managed/MicroCard.Build/VersionConstraint.cs:296-347 | and every term that is read is a written one |
| WrittenTerms.TermAdmits | managed/MicroCard.Build/VersionConstraint.cs:351-402 | the term read admits what the written one says: ^ from the bound on, sharing the parts up to the first nonzero one or all; ~ sharing the first of two or all but the last; a wildcard sharing all; the others by the order of versions |
| WrittenTerms.VersionTextIff | managed/MicroCard.Build/VersionConstraint.cs:404-421 | a version text is two to four dotted numbers and nothing else |
| VersionConstraint.TryEvaluate | managed/MicroCard.Build/VersionConstraint.cs:258-294 | succeeds exactly on the grammar's texts and answers whether some alternative matches |
| VersionConstraint.ReadAlternatives | managed/MicroCard.Build/VersionConstraint.cs:91-119 | one intersected range for each alternative, or failure exactly as Normalize fails |
| VersionConstraint.Normalize | managed/MicroCard.Build/VersionConstraint.cs:87-130 | succeeds exactly on accepted texts with at most eight alternatives, none structurally empty, and returns the normal form of their ranges |
| VersionConstraint.IsValid | managed/MicroCard.Build/VersionConstraint.cs:70-71 | true exactly on the grammar's texts |
| VersionConstraint.IsMatch | managed/MicroCard.Build/VersionConstraint.cs:73-78 | true exactly when both texts parse and some alternative admits the version |
| WrittenConstraints.BlanksAre | managed/MicroCard.Build/VersionConstraint.cs:291 | the blanks between terms, by code point |
| WrittenConstraints.AcceptedIffWritten | managed/MicroCard.Build/VersionConstraint.cs:258-294 | the accepted texts are exactly the written constraints of at most 128 characters whose bounds fit 16 bits |
| WrittenConstraints.WrittenIsRead | managed/MicroCard.Build/VersionConstraint.cs:258-294 | a written constraint is refused exactly when it is longer or some bound overflows, and is otherwise read as its alternatives |
| WrittenConstraints.EvaluationMeans | managed/MicroCard.Build/VersionConstraint.cs:258-294 | a version matches exactly when all terms of some written alternative admit it |
| WrittenConstraints.MatchMeans | managed/MicroCard.Build/VersionConstraint.cs:73-78 | IsMatch on a written constraint and a written version, which is never too long |
| WrittenConstraints.NormalizationMeans | managed/MicroCard.Build/VersionConstraint.cs:87-130 | the normalized list admits exactly the versions the written constraint admits |
| WrittenConstraints.NormalizableIff | managed/MicroCard.Build/VersionConstraint.cs:87-130 | Normalize returns exactly on accepted constraints of at most eight alternatives, each with a version, or a place between two versions or before all, that all its terms admit |
| VersionConstraint.NormalizeAgreesWithEvaluate | managed/MicroCard.Build/VersionConstraint.cs:87-294 | the normalized list admits exactly the versions TryEvaluate admits |
| VersionConstraint.NormalizeIgnoresAlternativeOrder | managed/MicroCard.Build/VersionConstraint.cs:120-129 | reordering the alternatives of a text leaves the list unchanged |
| Tlv.TryRead | managed/MicroCard.Framework/Tlv.cs:15-83 | accepts exactly the bounded canonical headers, writes its five slots on success and nothing otherwise |
| Tlv.ReadCanonicalValue | managed/MicroCard.Framework/Tlv.cs:122-156 | the DER content rules by universal tag |
| Tlv.ReadObjectIdentifier | managed/MicroCard.Framework/Tlv.cs:158-171 | every subidentifier minimal and the last complete |
| Tlv.HeaderIsWritten | managed/MicroCard.Framework/Tlv.cs:21-82 | an accepted header is octet for octet the one WriteHeader makes for its tag and length, so tags and lengths are minimal |
| Tlv.WrittenHeaderReads | managed/Shared/BoundedTlv.cs:65-113 | a written header reads back whatever follows |
| Tlv.HeaderIsLocal | managed/MicroCard.Framework/Tlv.cs:15-83 | the result depends only on the octets up to the end of the value |
| Tlv.WriteHeader | managed/Shared/BoundedTlv.cs:65-74 | writes exactly the header octets when they fit and nothing otherwise |
| Tlv.WriteHeaderUnchecked | managed/Shared/BoundedTlv.cs:91-113 | the octets around the header are untouched |
| Der.TryValidate | managed/MicroCard.Encoding/Der.cs:128-168 | true exactly on a region of canonical elements nesting at most scratchLength - 5 deep; stack and result slots do not collide, nothing outside the scratch region changes, and it ends |
| Der.PendingPushes | managed/MicroCard.Encoding/Der.cs:142-166 | one turn of the loop: descend, step over, or run out of stack |
| Der.ValidRegionIsEncoded | managed/MicroCard.Encoding/Der.cs:128-168 | every validated region is the encoding of an element tree that fits the stack |
| Der.EncodedIsValidRegion | managed/MicroCard.Encoding/Der.cs:128-168 | every such encoding is validated and parses back to its tree |
| Der.ValidRegionIff | managed/MicroCard.Encoding/Der.cs:128-168 | validity is being the encoding of some tree that fits |
| Der.EncodedInjective | managed/MicroCard.Encoding/Der.cs:8-9 | no octets encode two trees |
| DerValues.BooleanIff | managed/MicroCard.Framework/Tlv.cs:124-125 | the contents of a BOOLEAN are 00 and FF |
| DerValues.IntegerIff | managed/MicroCard.Framework/Tlv.cs:137-146 | the contents of an INTEGER are the shortest two's complements |
| DerValues.BitStringIff | managed/MicroCard.Framework/Tlv.cs:148-156 | the contents of a BIT STRING are the bit lists packed eight an octet, filled up with zeros and preceded by how many |
| DerValues.ObjectIdentifierIff | managed/MicroCard.Framework/Tlv.cs:158-171 | the contents of an OBJECT IDENTIFIER are one or more numbers in base 128 without leading zeros, all digits but the last marked |
| DerValues.HeaderIff | managed/MicroCard.Framework/Tlv.cs:21-68 | without the DER checks a header is accepted exactly when it is the octets of a tag of at most three octets and of a length below 65536 that leaves room for the value |
| DerValues.HeaderOfTag | managed/MicroCard.Framework/Tlv.cs:21-68 | and every accepted header is that of some tag |
| DerValues.ValidRegionSpells | managed/MicroCard.Encoding/Der.cs:128-168 | a region is valid exactly when it spells values one after the other, groups nesting no deeper than the stack, every tag in its prescribed form and every content in its only form |
| DerValues.OneValue | managed/MicroCard.Framework/Tlv.cs:122-156 | on its own a BOOLEAN of content c is valid exactly for c = 00 or FF, a NULL exactly for no content |
| DerSetOf.CanonicalSetOfOrder | managed/MicroCard.Encoding/Der.cs:184-205 | true exactly when the region is elements end to end and all pairs ascend in the zero-padded order of section 11.6 of X.690 |
| DerSetOf.CompareEncoded | managed/MicroCard.Encoding/Der.cs:207-218 | octet order with the length as tie-break |
| DerSetOf.CompareIsPadded | managed/MicroCard.Encoding/Der.cs:207-218 | on whole elements that order is the zero-padded one |
| DerSetOf.ElementsDiffer | managed/MicroCard.Framework/Tlv.cs:15-83 | two different elements differ before either ends |
| DerSetOf.PaddedLeqTransitive | managed/MicroCard.Encoding/Der.cs:192-203 | comparing neighbours is enough |
| DerSetOf.ValidRegionSplits | managed/MicroCard.Encoding/Der.cs:99-103 | a validated region is elements end to end, as the order check expects |
| DerWriters.WriteInteger | managed/MicroCard.Encoding/Der.cs:31-48 | the octets written are 02, a length and the shortest two's complement of the value, which read back as that value in canonical form; the rest of the buffer is untouched |
| DerWriters.CanonicalIntegerUnique | managed/MicroCard.Framework/Tlv.cs:137-146 | an integer of any size has exactly one canonical content |
| DerWriters.CanonicalIffShortest | managed/MicroCard.Framework/Tlv.cs:137-146 | the first-two-octets rule is exactly being as short as possible |
| DerWriters.ContentReads | managed/MicroCard.Encoding/Der.cs:33-46 | the shifted-out octets are the value's two's complement |
| DerWriters.IsPrimitiveSequence | managed/Shared/DerCanonical.cs:20-44 | accepts exactly elements with one primitive identifier octet and canonical content |
| DerWriters.PrimitiveRegionValidIff | managed/Shared/DerCanonical.cs:20-44 | what it accepts is valid DER exactly when no element is tagged 16 or 17 |
| DerWriters.BareSequenceAccepted | managed/Shared/DerCanonical.cs:30-40 | the octets 10 00 are accepted and are not DER |
| Utf8.TextReads | scripts/device_cbor.py:37-39 | text reads back from its UTF-8 |
| Utf8.TextWrites | scripts/device_cbor.py:98 | octets that decode strictly are the only UTF-8 of their text |
| Utf8.ScalarSays | scripts/device_cbor.py:37-39 | a scalar is one to four octets, by its size; the leading bits tell how many, and the others are its digits in base 64 |
| CborReaders.Decoder.ReadItem | scripts/device_cbor.py:77-99 | the item reader and its offset, against the grammar of items |
| CborReaders.DecodeRecord | scripts/device_cbor.py:67-104 | decode with its quota and trailing-data check |
| CborReaders.RecordReader.Read | managed/MicroCard.Build/ManifestCbor.cs:19-39 | the second item reader, against the same grammar without negative integers |
| CborReaders.ReadRecord | managed/MicroCard.Build/ManifestCbor.cs:10-43 | the second reader with its quota and trailing-data check |
| CborReaders.WriteArgument | managed/MicroCard.Build/ManifestCbor.cs:72-87 | the last octets of the 64-bit big-endian form are the head _argument writes |
| CborCanonical.HeadReads | scripts/device_cbor.py:16-24 | a written head reads back whatever follows |
| CborCanonical.HeadWrites | scripts/device_cbor.py:80-92 | an accepted head is the shortest one, as written |
| CborCanonical.HeadSays | scripts/device_cbor.py:16-24 | the major type in the high three bits, then the argument or 24 to 27 and one, two, four or eight octets, the highest first, never more than needed |
| CborCanonical.EncodedSays | scripts/device_cbor.py:27-42 | F6, F4 and F5 for null, false and true, and the major type of every other kind of value |
| CborCanonical.EncodedReads | scripts/device_cbor.py:27-42 | every encodable value within the nesting limit reads back |
| CborCanonical.DecodedWrites | scripts/device_cbor.py:77-99 | an accepted item's octets are the encoding of its value |
| CborCanonical.DecodeIffEncode | scripts/device_cbor.py:27-104 | decode(b) is v exactly when encode(v) is b within the nesting and size limits |
| CborCanonical.EncodingsPrefixFree | scripts/device_cbor.py:27-42 | no encoding starts another, at any size |
| CborCanonical.ReadersAgree | managed/MicroCard.Build/ManifestCbor.cs:19-39 | the two readers agree on everything but negative integers |
| Bundle.ReadAll | managed/MicroCard.Bundle/Program.cs:62-63 | the dictionary by identity, refused exactly on a duplicate |
| Bundle.SortedKeys | managed/MicroCard.Bundle/Program.cs:77 | the keys in ordinal order |
| Bundle.FirstReady | managed/MicroCard.Bundle/Program.cs:81 | the first remaining name whose dependencies are all loaded |
| Bundle.Order | managed/MicroCard.Bundle/Program.cs:76-86 | loads everything dependencies first with the ordinally first choice each time, or there is a cycle |
| Bundle.NothingReadyHasCycle | managed/MicroCard.Bundle/Program.cs:82 | when nothing is ready a dependency cycle exists |
| Bundle.OrderHasNoCycle | managed/MicroCard.Bundle/Program.cs:79-85 | and no order exists when there is one |
| Bundle.LessTotal | managed/MicroCard.Bundle/Program.cs:77 | ordinal comparison decides any two names |
| Bundle.LessIff | managed/MicroCard.Bundle/Program.cs:77 | a name comes first when it is smaller at the first difference, or a proper prefix |
| BundleOrder.LoadPackages | managed/MicroCard.Bundle/Program.cs:59-88 | succeeds exactly on an admissible acyclic set, with a permutation, mscorlib first, dependencies first, greedy; otherwise no load order exists |
| BundleOrder.LoadOrderIsLeast | managed/MicroCard.Bundle/Program.cs:79-85 | where any other load order first differs it has the later name |
| BundleOrder.OrderIgnoresArguments | managed/MicroCard.Bundle/Program.cs:59-88 | the order of the arguments changes neither acceptance nor the result |
| Heaps.StringHeap.Add | managed/MicroCard.Tool/Mc04Writer.Metadata.cs:399-405 | a known name costs nothing, a new one is appended unless it holds NUL or the heap is full; no earlier entry changes |
| Heaps.BlobHeap.Add | managed/MicroCard.Tool/Mc04Writer.Metadata.cs:415-422 | the same for blobs behind their one- or two-octet length |
| Heaps.NameReads | scripts/mcinspect.py:50-54 | string_at reads a stored name back |
| Heaps.BlobReads | scripts/mcinspect.py:55-61 | blob_at reads a stored value back |
| Heaps.BlobHeaderSays | managed/MicroCard.Tool/Mc04Writer.Metadata.cs:419-420 | a length is one octet below 128, and otherwise 14 bits behind the bits 10 |
| Heaps.NameStays | managed/MicroCard.Tool/Mc04Writer.Metadata.cs:403-404 | a stored name survives any growth of the heap |
| Heaps.BlobStays | managed/MicroCard.Tool/Mc04Writer.Metadata.cs:418-421 | and so does a blob |
| HeapTables.PopulateHeaps | managed/MicroCard.Tool/Mc04Writer.Metadata.cs:24-43 | afterwards every heap column of every row is known, or one was refused |
| HeapTables.WriteIndex | managed/MicroCard.Tool/Mc04Writer.Metadata.cs:258-261 | the inspector's heap_index reads the value back behind the octets already written; refused exactly when it does not fit |
| MetadataTables.RowsAreLoaded | managed/MicroCard.Tool/Mc04Writer.Metadata.cs:24-126 | every name and blob BuildTables asks for was added by PopulateHeaps |
| MetadataTables.StartsFitIff | managed/MicroCard.Tool/Mc04Writer.Metadata.cs:72-83 | when every row has an owner every list start fits, except with exactly 255 rows of a kind none of which belongs to the last type, or more than 65534 |
| MetadataTables.LastListDoesNotStart | managed/MicroCard.Tool/Mc04Writer.Metadata.cs:80-83 | two types that own 255 fields and none cannot be written |
| HeapTables.RowCounts | managed/MicroCard.Tool/Mc04Writer.Metadata.cs:7-22 | the counts of the four tables that are always there and of the others with rows; refused exactly when some count exceeds 16 bits |
| HeapTables.WriteHeader | managed/MicroCard.Tool/Mc04Writer.Metadata.cs:49-56 | schema version, index widths, table mask and the counts in the order of the tables |
| TableReading.ColumnsInOrder | managed/MicroCard.Tool/Mc04Writer.Metadata.cs:58-124 | the rows are written table by table in the order of the table numbers |
| TableReading.RecordsShown | scripts/mcinspect.py:98-114 | each row has the columns of the format's schema and shows its record: names, namespaces, signatures, flags, keys; FieldList and MethodList of a type are one more than the fields and methods of the types before it |
| TableReading.HeaderReads | scripts/mcinspect.py:31-40 | the inspector finds the widths and the row counts the header was written from |
| TableReading.SectionReads | scripts/mcinspect.py:31-126 | from the octets and the two heaps alone it lists exactly the records of the program, with nothing left over |
| HeapTables.BuildTables | managed/MicroCard.Tool/Mc04Writer.Metadata.cs:45-126 | every Add hits, the heaps stay unchanged, no heap index overflows, and the inspector lists the program; fails exactly when a field or method list starts at a row its column cannot hold |
| HeapTables.WriteSections | managed/MicroCard.Tool/Mc04Writer.cs:155-205 | fails only on a row quota, a heap quota or a list start; otherwise each index width is one octet exactly up to 256 heap octets, holds for all rows, and the inspector lists the program, whatever the heaps held before |

## Left out

- Cil.Decode: does not model 32-bit wrap of branch targets, because `Compaction.WrappedTargetIsNoInstruction` shows a wrapped target is refused either way.
- MetadataTokens.EntityHandle is outside the repository: it is taken to refuse exactly the tokens whose table octet is 0x70 or more.
- Exceptional CIL runs and the evaluation stack: ordinary instructions have arbitrary effects on an arbitrary state, and only normal exits of the scope are followed.
- What newobj makes of a constructor that was projected to Begin: it is left to the effects, as for any member; a call or callvirt of a projected member counts as a call of its projection.
- `Injective` and `PlainArrays` in ScopeCompiled say of the given resolver what the source's row dictionaries and TransactionControl do: no two tokens share a row, and a generic instantiation controls nothing.
- A write to the scope's local through its address: no instruction of the payload or the tail has that effect here, and the source does not look for one; `ScopeCompiled.CompilesWithoutAddresses` shows that none survives compilation.
- The theorems about scopes speak of bodies that decode left to right; on a body with a negative switch count `RewriteTransactionScope` is specified, but what its octets do is not.
- Metadata resolution (token to row, opcode metadata, TransactionControl, TryGetEmptyArrayElement) enters as given functions; the projection of query members and types is not modelled.
- List.Sort: any sorted permutation stands for it; the insertion sort in `NormalForm.SortByMinimum` is a stand-in.
- Error kinds and messages: every failure is `None`.
- Constraint text is a sequence of Unicode scalars; the length limit of 128 counts UTF-16 units in the source, which is the same on every text the grammar accepts.
- TryCallAllocationObjects: the same search as TryCallAllocationBytes without the direct limit.
- The analysers' syntax-tree collection, source locations and iteration order of call sites: any order of calls is admitted.
- DER string and OID writers and BoundedTlv.Write with its overlap-safe copy: thin uses of the header writer and the validator.
- JSON conversion and manifest field shapes in ManifestCbor; Python's recursion limit and tuples in device_cbor.
- EncodeBody and the package envelope: their input is the ordered list, which does not depend on argument order.
- Coded indexes, flags, code offsets and version numbers enter the metadata as numbers of their width; how they are made of handles and builds is not modelled. The inspector's listing leaves out heap offsets and method bodies.
- A heap larger than a 32-bit length, file writing, process start-up, signatures, the simulator and the board drivers.
