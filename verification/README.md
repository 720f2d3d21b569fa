# Lirien middle end, verified

Lirien compiles annotated Python functions. Its middle end builds an SSA control-flow graph, analyses
it, rewrites it with three optimisation passes, turns it into solver conditions and lowers it to
machine code with block parameters. This project models those stages and proves what each of them is
for. `dafny verify dfyconfig.toml` checks everything.

The stages share one intermediate representation (`ir.dfy`) and one meaning of running it
(`semantics.dfy`): a block reads all its phis at once along the edge taken, integers wrap at the width
of the value they define, a branch tests for non-zero, and everything no stage looks into (loads,
calls, stores, element arithmetic) is arbitrary, so the theorems hold for every meaning of it.

- **SSA construction** (`ssa_builder.dfy`, `ssa_correctness.dfy`, `ssa_strict.dfy`). The builder's maps,
  incomplete phis and seals are fields of a class; the mutually recursive lookup is proved to end, and
  whatever it returns evaluates on every path to the last value stored to the variable. What is handed
  on is strict SSA, and its runs hold the last stored values.
- **Liveness** (`liveness.dfy`, `liveness_soundness.dfy`). The chaotic fixed point ends with the least
  solution, described by paths; what is not live cannot influence a run.
- **Passes** (`dce.dfy`, `dce_traps.dfy`, `constant_folding.dfy`, `fusion.dfy`, `fusion_exact.dfy`,
  `fusion_meaning.dfy`, `fusion_dead.dfy`, `optimization.dfy`).
  Each in-place pass is proved against a specification function, and the specification preserves every
  run. Folding leaves nothing it could fold, fusion absorbs exactly the single-use element-wise operands,
  and dead code elimination really removes the absorbed intermediates. The pipeline of all three keeps
  strict SSA and every run.
- **Strict SSA** (`cfg.dfy`, `strict_ssa.dfy`). Walks, dominance, and the fact the folding and
  loop-equality proofs rest on: equations of dominating definitions hold with current values.
- **Verification conditions** (`conditions.dfy`, `translation.dfy`, `condition_meaning.dfy`,
  `run_conditions.dfy`, `condition_runs.dfy`, `safety.dfy`, `loop_runs.dfy`). Formulas are data; the
  translation pushes them into a context that asks a solver. For functions without cycles that branch
  on zeros and ones, satisfying assignments and runs are the same thing, so an unsatisfiable query is a
  guarantee about runs. With loops the conditions leave header phis open on back edges; they hold of
  everything a run does until it comes back to a block, so the guarantee covers first iterations.
  `loop_equality.dfy` proves the loop-variable equality detector exact and sound, loops included;
  `reachability.dfy` is the search both use.
- **Order and lowering** (`block_order.dfy`, `phi_lowering.dfy`, `phi_passing.dfy`). Reverse post-order
  puts dominators first, so lowering finds every operand; passing registers to block parameters,
  through trampolines too, is reading the phis at once.
- **Runtime** (`row_major.dfy`, `broadcast.dfy`, `layout.dfy`, `layout_sizes.dfy`, `growable_list.dfy`, with
  `arithmetic.dfy`). Row-major indexing as a bijection, the broadcast kernel against its definition by
  projected indices, record layout with mask rounding, and the doubling byte list as a sequence.

The model follows the code where it and its purpose part ways; each such place has a concrete example
and the exact condition under which the code does what it is for:

- The verifier takes a branch when the condition equals 1, compiled code when it is not 0
  (`ConditionMeaning.BranchTestAgrees`, `Safety.WideConditionIsMissed`); they agree exactly on 0 and 1,
  and a run satisfies the conditions, a satisfying assignment is a run, exactly when all branch
  conditions passed are 0 or 1 (`RunConditions.RunSatisfiesConditions`, `ConditionRuns.ModelIsRunExactly`).
- The conditions of a loop show how it is entered and no later time round: a header's phi has the value of
  an operand from outside (`LoopRuns.OnlyFirstPassIsSeen`). A run satisfies them up to its first return to a
  block it has passed, exactly when it entered its loops from outside (`LoopRuns.FirstPassSatisfies`), as it
  does natural loops; a later iteration can violate a check that holds (`LoopRuns.LaterPassIsMissed`).
- Match tags are compared at eight bits (`ConditionMeaning.TagTestAgrees`); tags below 256 only.
- A true comparison has all bits set in compiled code and equals one in the verifier; the two are the same
  exactly for results of one bit, which is how booleans are typed (`ConditionMeaning.MaskIsOneExactly`).
- A dead instruction is removed with the trap it would have caused; that is the only trap that vanishes
  (`DeadTraps.TrapsPreserved`, `DeadTraps.DeadLoadStopsTrapping`).
- Edges pass some operands of phis with too many or too few registers, with none, or in a form the phi is not
  read in. Which ones keep their meaning can be read off their records (`PhiPassing.CountsMatchExactly`,
  `PhiPassing.KeepsMeaningExactly`) or off the instruction that produced them (`PhiPassing.JoinsExactly`); the
  failures are `PhiPassing.TensorPhiDoesNotLineUp`, `PhiPassing.TensorPhiOfPhiFails`,
  `PhiPassing.TuplePhiDoesNotLineUp`, `PhiPassing.NamedTupleInMemoryDoesNotLineUp`,
  `PhiPassing.BufferWithoutLengthFails`, `PhiPassing.SingletonTupleIsLost` and `PhiPassing.SliceIsLost`.
- For a loop on `a and b` the branch stands in the block the short-circuit ends in, while its targets are
  recorded as successors of the header (crates/lirien-ir/src/builder/visitor/statements.rs:398-401). Liveness
  and SSA construction are correct where a terminator's targets are recorded successors of its block, and
  fail here (`LivenessSoundness.UnrecordedTargetIsMissed`, `BuiltSsa.UnrecordedEdgeLosesStore`).
- A tensor index out of range along one axis is only refused when the flat cell leaves the buffer
  (`RowMajor.OutOfRangeAliases`, `RowMajor.Tensor.GetItem`).
- Looking a field up by its offset finds the wrong field after an empty one
  (`Layout.SearchInvertsExactly`, `Layout.EmptyFieldShadows`).

## Model

| member | source | states |
|---|---|---|
| `SsaBuilder.CFGBuilder.constructor` | crates/lirien-ir/src/builder/mod.rs:305-308 | a new builder has one sealed entry block without predecessors, no values and no stores, and satisfies the builder invariant |
| `SsaBuilder.CFGBuilder.WriteVariable` | crates/lirien-ir/src/builder/mod.rs:327-332 | after a store the variable reads as the stored value at the end of that block, no other reading changes, and every finished join and copy still agrees with its predecessors |
| `SsaBuilder.CFGBuilder.CreateBlock` | crates/lirien-ir/src/builder/mod.rs:481-490 | the new block is empty, unconnected and numbered by its position; the invariant is kept |
| `SsaBuilder.CFGBuilder.NextValue` | crates/lirien-ir/src/ir/function.rs:104-108 | the new value is defined in no block and owned by no phi; the invariant is kept |
| `SsaBuilder.CFGBuilder.AddInstruction` | crates/lirien-ir/src/builder/mod.rs:447-464 | appending an instruction that defines a value of its own keeps every recorded reading valid |
| `SsaBuilder.CFGBuilder.LinkBlocks` | crates/lirien-ir/src/builder/mod.rs:496-507 | an edge is recorded once at both ends, and finished joins stay complete: a sealed block read on entry gets no new predecessor |
| `SsaBuilder.CFGBuilder.SealBlock` | crates/lirien-ir/src/builder/mod.rs:424-431 | sealing ends with all phis waiting in the block complete, nothing read before having changed; it fails only for a variable that some predecessor leads back to the start without a store to |
| `SsaBuilder.CFGBuilder.CompletePhis` | crates/lirien-ir/src/builder/mod.rs:426-429 | completing the waiting phis one after the other leaves none pending and keeps everything read before |
| `SsaBuilder.CFGBuilder.ReadVariable` | crates/lirien-ir/src/builder/mod.rs:334-341 | a lookup ends on every graph whose single-predecessor chains are reachable; it returns what the variable reads as in the block, only adds phis and memoised readings, and succeeds unless some storeless walk leads back to a block without predecessors |
| `SsaBuilder.CFGBuilder.ReadVariableRecursive` | crates/lirien-ir/src/builder/mod.rs:343-386 | the three cases (unsealed block, single predecessor, join) all record a reading that agrees with the predecessors; termination by the number of blocks without a reading, then by distance from the entry |
| `SsaBuilder.CFGBuilder.PlacePhi` | crates/lirien-ir/src/builder/mod.rs:351-356 | the fresh phi stands first in its block and is recorded before any operand is read, waiting for the seal when the block is unsealed |
| `SsaBuilder.CFGBuilder.AddPhiOperands` | crates/lirien-ir/src/builder/mod.rs:388-422 | the phi ends up with exactly one operand per predecessor, each the value the variable has at the end of that predecessor |
| `SsaBuilder.CFGBuilder.ReplacePhi` | crates/lirien-ir/src/builder/mod.rs:411-420 | the operands of the first phi defining the value are replaced and no other instruction changes |
| `SsaBuilder.LookupExtendsTransitive` | crates/lirien-ir/src/builder/mod.rs:343-422 | what one lookup guarantees about untouched readings survives any number of further lookups |
| `SsaBuilder.UnboundThrough` | crates/lirien-ir/src/builder/mod.rs:370-375 | a variable that cannot be bound in a predecessor cannot be bound in the block: the storeless walk is extended by the edge |
| `SsaBuilder.StepBack` | crates/lirien-ir/src/builder/mod.rs:374-375 | going to the only predecessor of a reachable block comes strictly closer to the entry, so chains of copies end |
| `SsaBuilder.FewerUnresolved` | crates/lirien-ir/src/builder/mod.rs:377-380 | recording the phi of a join before reading its operands makes the set of blocks without a reading strictly smaller, so cycles end |
| `SsaBuilder.FilledOk` | crates/lirien-ir/src/builder/mod.rs:411-420 | filling in a phi keeps the invariant: it becomes complete and every other reading keeps its justification |
| `SsaBuilder.SealedOk` | crates/lirien-ir/src/builder/mod.rs:424-426 | marking a block sealed keeps the invariant, its waiting phis becoming pending |
| `SsaCorrectness.DefinedOnWalk` | crates/lirien-ir/src/builder/mod.rs:334-386 | whatever a variable reads as is defined in some block of every walk from the entry to the reader |
| `SsaCorrectness.CopyIsNotClobbered` | crates/lirien-ir/src/builder/mod.rs:374-375 | a block that takes a value over from its only predecessor does not redefine it, inside loops too |
| `SsaCorrectness.EntryReadGivesLastStore` | crates/lirien-ir/src/builder/mod.rs:343-386 | along every walk, the value read on entry to a block evaluates to the variable's last stored value on the walk before it |
| `SsaCorrectness.ReadGivesLastStore` | crates/lirien-ir/src/builder/mod.rs:334-341 | SSA construction is correct on every path, cycles included: the value a block holds for a variable evaluates, with phis read along the edge taken, to the last value stored to it on that path |
| `SsaCorrectness.BoundIsStored` | crates/lirien-ir/src/builder/mod.rs:343-386 | the converse of a failing lookup: from a bound block no walk back to a block without predecessors avoids all stores, unless that block was read before it was sealed |
| `BuiltSsa.PhiOperandAvailable` | crates/lirien-ir/src/builder/mod.rs:388-422 | in a finished function every phi operand is defined by a block that dominates its predecessor, or is a parameter |
| `BuiltSsa.BuiltIsStrict` | crates/lirien-ir/src/builder/mod.rs:327-431 | the finished function is in strict SSA form: one definition per value, phis first, operands available; only terminators and the operands of ordinary instructions are left to the front end |
| `BuiltSsa.RunHoldsLastStore` | crates/lirien-ir/src/builder/mod.rs:327-431 | in every run of the finished function, loops included, the value recorded for a variable in a block holds, when the block ends, what was last stored to the variable on the way |
| `BuiltSsa.UnrecordedEdgeLosesStore` | crates/lirien-ir/src/builder/visitor/statements.rs:398-401 | where an edge was recorded from another block than the one that takes it, a finished construction reads a variable as an older store |
| `Cfg.SinglePredecessorIsCloser` | crates/lirien-ir/src/builder/mod.rs:374-375 | over the only edge into a reachable block the shortest distance from the entry decreases |
| `Liveness.AnalyzeLiveness` | crates/lirien-ir/src/analysis/liveness.rs:23-115 | the result is the least solution: a value is in live-in of a block exactly when some path from it uses the value, or reads it in a phi on that edge, before any definition; live-out agrees with the final live-in, and walking the per-instruction sets back gives live-in again |
| `Liveness.FixedPoint` | crates/lirien-ir/src/analysis/liveness.rs:27-90 | the `while changed` loop ends, every round but the last adding a pair of block and value, and leaves the least solution |
| `Liveness.Sweep` | crates/lirien-ir/src/analysis/liveness.rs:35-89 | one sweep over the blocks only grows sets, never beyond what is live, and reports a change unless all equations hold |
| `Liveness.LiveOutOf` | crates/lirien-ir/src/analysis/liveness.rs:38-66 | the union over successors lets phi operands live only on their own edge and drops the phis' results |
| `Liveness.LiveInOf` | crates/lirien-ir/src/analysis/liveness.rs:70-81 | the backward pass over the instructions removes definitions and adds uses of everything but phis |
| `Liveness.LiveAfterEach` | crates/lirien-ir/src/analysis/liveness.rs:93-108 | each instruction gets the values live just after it |
| `Liveness.SolutionCoversLive` | crates/lirien-ir/src/analysis/liveness.rs:36-81 | every solution of the dataflow equations contains every value used along a path before a definition |
| `Liveness.LeastBelowEverySolution` | crates/lirien-ir/src/analysis/liveness.rs:32-90 | the computed solution is contained in every other solution |
| `Liveness.Climb` | crates/lirien-ir/src/analysis/liveness.rs:83-88 | writing a recomputed live-in set keeps all sets below what is live and below their recomputation |
| `Liveness.TotalBounded` | crates/lirien-ir/src/analysis/liveness.rs:32-33 | the total size of the sets is bounded by blocks times mentioned values, which ends the loop |
| `LivenessSoundness.RunsAgree` | crates/lirien-ir/src/analysis/liveness.rs:32-90 | two stores that agree on what an edge needs give runs with the same path, effects on the same operands, ending, result and memory, for any number of steps |
| `LivenessSoundness.LiveOutSuffices` | crates/lirien-ir/src/analysis/liveness.rs:36-67 | stores that agree on live-out of a block continue identically along each of its edges |
| `LivenessSoundness.UnrecordedTargetIsMissed` | crates/lirien-ir/src/builder/visitor/statements.rs:398-401 | where a branch's targets are not recorded successors of its block, every solution misses what they use, and a run shows it |
| `LivenessSoundness.BindPhisAgrees` | crates/lirien-ir/src/analysis/liveness.rs:57-64 | agreement on the operands of one edge is enough for all phis of the target |
| `Semantics.ComputeAgrees` | crates/lirien-ir/src/ir/instruction.rs:974-1046 | an instruction's value depends on the store only through the operands it reports as uses |
| `Semantics.PerformAgrees` | crates/lirien-ir/src/ir/instruction.rs:955-1046 | performing an instruction on stores that agree on its uses has the same visible effect and changes nothing but what it reports as defined |
| `Semantics.LeaveAgrees` | crates/lirien-ir/src/ir/instruction.rs:1026-1046 | where a terminator goes, and what is returned, depends only on its reported uses |
| `Semantics.ExecTarget` | crates/lirien-ir/src/ir/instruction.rs:1050-1067 | a block hands control only to a target of a terminator it contains |
| `IR.Find` | crates/lirien-backend/src/cranelift/mod.rs:716-716 | a lookup by id finds a block carrying it, or there is none |
| `IR.FindDef` | crates/lirien-ir/src/optimization/dce.rs:50-61 | the search finds an instruction that defines the value, or there is none |
| `Semantics.SideEffectsExactly` | crates/lirien-ir/src/ir/instruction.rs:1050-1067 | an instruction has side effects exactly when it ends its block or can be observed; any other leaves the memory alone |
| `StrictSsa.EquationsHold` | crates/lirien-backend/src/cranelift/mod.rs:703-704 | in strict SSA the equation of a memory-free definition holds, with current values, after every run wherever the definition dominates, loops included |
| `StrictSsa.DefinedAfter` | crates/lirien-backend/src/cranelift/mod.rs:703-704 | after a run every value defined in a block it passed is in the store |
| `DeadCode.EliminateDeadCode` | crates/lirien-ir/src/optimization/dce.rs:4-48 | the function keeps exactly the instructions selected by the required values, block by block, in order |
| `DeadCode.RequiredValues` | crates/lirien-ir/src/optimization/dce.rs:9-33 | the worklist ends with exactly the values some side effect depends on, through any chain of definitions, phi operands included |
| `DeadCode.Roots` | crates/lirien-ir/src/optimization/dce.rs:9-18 | the worklist starts with the operands of the side-effecting instructions |
| `DeadCode.PushOperands` | crates/lirien-ir/src/optimization/dce.rs:63-72 | all operands are pushed, a phi's from every edge |
| `DeadCode.LeastClosed` | crates/lirien-ir/src/optimization/dce.rs:20-33 | the kept values are contained in every set that has the roots and is closed under operands |
| `DeadCode.RequiredIsClosed` | crates/lirien-ir/src/optimization/dce.rs:28-32 | the kept values are closed under operands of their definitions |
| `DeadCode.RunsPreserved` | crates/lirien-ir/src/optimization/dce.rs:4-48 | the pruned function runs identically: same path, same side effects on the same operand values, same ending, result and memory, for any number of steps |
| `DeadTraps.TrapsPreserved` | crates/lirien-ir/src/optimization/dce.rs:36-47 | whatever instructions trap on: a run is free of traps exactly when the pruned run is and no removed instruction would have trapped |
| `DeadTraps.DeadLoadStopsTrapping` | crates/lirien-ir/src/optimization/dce.rs:36-47 | a run that traps in a dead load no longer does after the pass |
| `DeadCode.KeptExactly` | crates/lirien-ir/src/optimization/dce.rs:36-47 | an instruction survives exactly when it has a side effect or a side effect depends on its result |
| `DeadCode.NoDanglingOperand` | crates/lirien-ir/src/optimization/dce.rs:36-47 | nothing that survives refers to a removed definition |
| `DeadCode.SecondRunChangesNothing` | crates/lirien-ir/src/optimization/dce.rs:4-48 | a second run finds the same required values and removes nothing |
| `ConstantFolding.FoldConstants` | crates/lirien-ir/src/optimization/constant_folding.rs:4-109 | the in-place pass over all blocks, one table of constants carried through, rewrites the function as specified; where every value has one definition no addition, subtraction, multiplication or negation is left whose operands are literals earlier in block order, and 64-bit literals stay 64-bit literals |
| `ConstantFolding.PassFoldsAll` | crates/lirien-ir/src/optimization/constant_folding.rs:21-103 | after the pass nothing is left to fold: no integer operation between literals defined earlier, in its own block or an earlier one, and no float addition or negation of such |
| `ConstantFolding.RunsPreserved` | crates/lirien-ir/src/optimization/constant_folding.rs:4-109 | in strict SSA, for any block order and all widths up to 64, the folded function takes the same steps along every path, and each value the pass calls constant has that constant truncated to its width whenever it is defined |
| `ConstantFolding.FoldedComputes` | crates/lirien-ir/src/optimization/constant_folding.rs:21-103 | the literal put in place of an instruction is the value the instruction computes from the known operands |
| `ConstantFolding.WrapInt64` | crates/lirien-ir/src/optimization/constant_folding.rs:25-26 | wrapping to 64 bits and truncating later equals truncating at once, for every width up to 64 |
| `ConstantFolding.WrapOfSum` | crates/lirien-verify/src/verifier/arithmetic.rs:74-153 | sums and differences may be truncated before or after |
| `ConstantFolding.WrapOfProduct` | crates/lirien-verify/src/verifier/arithmetic.rs:126-140 | products may be truncated before or after |
| `ConstantFolding.WrapNarrow` | crates/lirien-ir/src/optimization/constant_folding.rs:21-103 | truncating a wider wrapped value gives the narrow value |
| `ConstantFolding.FoldBlocksOk` | crates/lirien-ir/src/optimization/constant_folding.rs:7-108 | with one definition per value, every block is folded consistently with the final table, whatever the block order |
| `Fusion.FuseTensorKernels` | crates/lirien-ir/src/optimization/fusion.rs:5-167 | the pass rewrites every block as the fusion specification says, with use counts that are the true number of uses in the function |
| `Fusion.UseCounts` | crates/lirien-ir/src/optimization/fusion.rs:8-16 | the count of a value is the number of its occurrences as an operand, phis not counted |
| `Fusion.FuseInsts` | crates/lirien-ir/src/optimization/fusion.rs:26-165 | the loop over a block, rewriting in place and recording definitions as they become, produces the specified fused block |
| `Fusion.UpToKeepsOrFuses` | crates/lirien-ir/src/optimization/fusion.rs:32-159 | an instruction is kept, or it was an element-wise operation and is now a fused kernel with the same result value |
| `Fusion.DefsOrdered` | crates/lirien-ir/src/optimization/fusion.rs:161-164 | recorded operands are defined earlier than the operation using them, which is why expanding an expression ends |
| `FusionExact.FusesExactly` | crates/lirien-ir/src/optimization/fusion.rs:169-266 | an element-wise operation is changed exactly when an operand has one use in the function and an element-wise definition earlier in the block, and then uses exactly its remaining operands and what the absorbed operations use after the pass; everything else stays |
| `FusionExact.SharedIsKept` | crates/lirien-ir/src/optimization/fusion.rs:177-177 | an operand with any number of uses but one is still an operand of its user after the pass |
| `FusionMeaning.KernelComputesExpr` | crates/lirien-ir/src/optimization/fusion.rs:197-280 | a fused loop over the cells computes the expression it was built from, for any element arithmetic |
| `FusionMeaning.FusedExprIs` | crates/lirien-ir/src/optimization/fusion.rs:197-280 | the expression built for a value means the value's definition with absorbed operands expanded, already fused ones included, and all its leaves are in the duplicate-free input list |
| `FusionMeaning.FuseInstIs` | crates/lirien-ir/src/optimization/fusion.rs:32-159 | with the recorded definitions holding, the fused instruction computes what the original computes |
| `FusionMeaning.RunsPreserved` | crates/lirien-ir/src/optimization/fusion.rs:5-167 | from any state and for any number of steps the fused function passes the same blocks, effects and results |
| `FusionMeaning.ValuesPreserved` | crates/lirien-ir/src/optimization/fusion.rs:5-167 | along any path every value of the fused function is the value it was before |
| `FusionMeaning.StrictIsOrdered` | crates/lirien-ir/src/optimization/fusion.rs:24-29 | strict SSA functions meet the ordering the pass relies on |
| `FusionDead.OnlyUse` | crates/lirien-ir/src/optimization/fusion.rs:8-16 | a use count of one means one use, at one place of one block |
| `FusionDead.AbsorbedHasNoUse` | crates/lirien-ir/src/optimization/fusion.rs:169-266 | a single-use element-wise result absorbed by its user is afterwards an operand of no instruction but phis |
| `FusionDead.AbsorbedIsDeleted` | crates/lirien-ir/src/optimization/dce.rs:20-47 | dead code elimination then deletes the absorbed definition unless a required phi reads it |
| `Optimization.FoldingKeepsStrict` | crates/lirien-ir/src/optimization/constant_folding.rs:4-109 | folding keeps strict SSA |
| `Optimization.FusionKeepsStrict` | crates/lirien-ir/src/optimization/fusion.rs:5-167 | fusion keeps strict SSA: what a kernel reads is available where it stands |
| `Optimization.PruningKeepsStrict` | crates/lirien-ir/src/optimization/dce.rs:4-48 | dead code elimination keeps strict SSA |
| `Optimization.PipelinePreservesRuns` | crates/lirien-ir/src/optimization/mod.rs:23-40 | folding, fusion and dead code elimination one after the other preserve every run of a strict function from its entry: same path, effects, ending, result and memory |
| `Optimization.Optimize` | crates/lirien-ir/src/optimization/mod.rs:23-40 | the three passes in place, in this order: the result is what folding leaves, fused by the use counts after folding, pruned to what that requires; it is strict and has the same runs |
| `Translation.TranslationContext.AssertCfgConstraints` | crates/lirien-verify/src/verifier/cfg.rs:16-104 | every block and edge gets its boolean; the entry is asserted on, every other block is on exactly when an edge into it is, and off when there is none |
| `Translation.TranslationContext.DeclareConstants` | crates/lirien-verify/src/verifier/cfg.rs:16-63 | edge booleans exist for exactly the edges of each block's last instruction |
| `Translation.TranslationContext.RecordSuccessors` | crates/lirien-verify/src/verifier/control_flow.rs:581-584 | the adjacency lists hold exactly the edges with a boolean |
| `Translation.TranslationContext.TranslateBranch` | crates/lirien-verify/src/verifier/control_flow.rs:20-45 | the two edges are equated to the block being on with the condition equal, or unequal, to one |
| `Translation.TranslationContext.TranslateMatch` | crates/lirien-verify/src/verifier/control_flow.rs:55-105 | each case edge is equated to its tag test and the default to none matching; a strict match is accepted exactly when the solver finds no assignment that reaches its default under the assertions so far |
| `Translation.TranslationContext.TranslatePhi` | crates/lirien-verify/src/verifier/control_flow.rs:106-307 | outside loops the phi equals the operand of each edge that is on; at a loop header only entry edges bind it, control must have come in by one, and equalities found with earlier phis are assumed and checked on every back edge |
| `Translation.TranslationContext.TranslateInstruction` | crates/lirien-verify/src/verifier/control_flow.rs:19-312 | the assertions and checks added are those specified for the instruction, nothing else |
| `Translation.TranslationContext.TranslateInstructions` | crates/lirien-verify/src/verifier/mod.rs:266-306 | all instructions of all blocks are translated; strict matches accepted on the way stay exhaustive under the assertions added later, a refusal is a strict match whose default part of the assertions admits, and only a solver that gives up leaves it open |
| `Translation.TranslationContext.CheckSafety` | crates/lirien-verify/src/verifier/mod.rs:150-169 | the verdict is the solver's answer to the assertions with the check's path condition and violation; a definite answer leaves the solver as it was |
| `Translation.TranslationContext.RunDeferredChecks` | crates/lirien-verify/src/verifier/mod.rs:230-242 | success means every registered check is unsatisfiable, refusal that one is satisfiable, and anything else that the solver gave up |
| `Translation.TranslationContext.Verify` | crates/lirien-verify/src/verifier/mod.rs:179-264 | success means the function's conditions exclude every check, those given for open instructions included, and every default of a strict match; refusal means they admit one; anything else that the solver gave up |
| `ConditionMeaning.MeaningIsCompute` | crates/lirien-verify/src/verifier/arithmetic.rs:18-153 | the bit-vector and float terms denote what the instruction computes, for operands of the result's width |
| `ConditionMeaning.DefinitionMeans` | crates/lirien-verify/src/verifier/arithmetic.rs:18-153 | what is asserted for an interpreted instruction, comparisons included, holds exactly when its result is what it computes |
| `ConditionMeaning.InterpretedExactly` | crates/lirien-verify/src/verifier/arithmetic.rs:18-153 | with fitting operands exactly literals, integer arithmetic, float addition, negations and comparisons have an equation |
| `ConditionMeaning.CompareMeans` | crates/lirien-verify/src/verifier/arithmetic.rs:527-607 | the two implications asserted for a comparison, signed, unsigned or of floats, pin its one-bit result to the compiled one |
| `ConditionMeaning.MaskIsOneExactly` | crates/lirien-backend/src/cranelift/lower/arithmetic.rs:19-38 | a true comparison has all bits set in compiled code and is one in the verifier: the same exactly at a width of one bit |
| `ConditionMeaning.TerminatorMeans` | crates/lirien-verify/src/verifier/control_flow.rs:20-105 | the assertions for a terminator, conditions of any width included, hold exactly when each of its edges is on precisely if the block is and the verifier sees the terminator go there |
| `ConditionMeaning.SeenIsTaken` | crates/lirien-verify/src/verifier/control_flow.rs:21-35 | what the verifier sees is what the terminator does exactly when the block is off or its branch condition is zero or one |
| `ConditionMeaning.PhiMeans` | crates/lirien-verify/src/verifier/control_flow.rs:109-307 | loops included: the assertions for a header phi hold exactly when the block, if on, is entered by an edge from a block it does not lead to, where there is one, the phi equals the operand of each such edge that is on, and every earlier phi the detector accepts; other phis equal the operand of every edge that is on |
| `ConditionMeaning.EncodingSeen` | crates/lirien-verify/src/verifier/cfg.rs:16-104 | loops included: all conditions of a function hold exactly of the assignments whose blocks, edges, phis and equations are as the verifier sees them |
| `ConditionMeaning.BlockAssertionMeans` | crates/lirien-verify/src/verifier/cfg.rs:79-104 | the structural assertion holds exactly when the block is on if and only if it is the entry or an edge into it is on |
| `ConditionMeaning.EncodingMeans` | crates/lirien-verify/src/verifier/cfg.rs:16-104 | an assignment that behaves like a run of a function without cycles (control follows the terminators, phis the edges, interpreted instructions their operands) satisfies its conditions exactly when its branch conditions are zero or one, and one that satisfies them behaves like a run exactly then |
| `ConditionMeaning.BranchTestAgrees` | crates/lirien-verify/src/verifier/control_flow.rs:21-35 | the verifier's test for one and the compiled test for non-zero pick the same edge exactly for the conditions 0 and 1 |
| `ConditionMeaning.TagTestAgrees` | crates/lirien-verify/src/verifier/control_flow.rs:59-63 | comparing a byte selector with a tag at eight bits is comparing it with the tag, exactly for tags below 256 |
| `RunConditions.RunSatisfiesConditions` | crates/lirien-verify/src/verifier/cfg.rs:79-104 | a run to the end satisfies all conditions, with the blocks and edges it took on, all others off, and the values it computed, exactly when every branch condition it evaluated was zero or one |
| `RunConditions.SettledKept` | crates/lirien-verify/src/verifier/control_flow.rs:264-307 | on a path without repetition a value, once defined, never changes |
| `RunConditions.RankedIsDistinct` | crates/lirien-verify/src/verifier/cfg.rs:16-63 | a run of a function without cycles passes no block twice |
| `ConditionRuns.ModelIsRun` | crates/lirien-verify/src/verifier/cfg.rs:79-104 | every satisfying assignment whose branch conditions are zero or one is a run: its blocks form exactly one path from the entry to an end, its edges are that path's steps, and the function runs along it with the assigned values at every step when open instructions answer as assigned |
| `ConditionRuns.ModelIsRunExactly` | crates/lirien-verify/src/verifier/control_flow.rs:20-35 | a satisfying assignment is a run if and only if the conditions of the branches it passes are zero or one |
| `ConditionRuns.OpenMeaning` | crates/lirien-verify/src/verifier/control_flow.rs:310-312 | replacing an instruction without equation by an arbitrary answer is invisible to the verifier |
| `ConditionRuns.OpenStep` | crates/lirien-verify/src/verifier/control_flow.rs:264-307 | entering a block with the assignment's values leaves it with the assignment's values |
| `Safety.ProvedIsSafe` | crates/lirien-verify/src/verifier/mod.rs:150-169 | when a check's query is unsatisfiable no run to the end that branches on zeros and ones violates the check |
| `Safety.ViolatedIsReached` | crates/lirien-verify/src/verifier/mod.rs:150-169 | a satisfying assignment that branches on zeros and ones is a run, with suitable answers of the open instructions, that reaches the violation |
| `Safety.VerifiedIsSafe` | crates/lirien-verify/src/verifier/mod.rs:179-264 | end to end: after a successful verification no run to the end violates any check asked about or leaves a strict match for its default |
| `Safety.NarrowIsBoolean` | crates/lirien-verify/src/verifier/control_flow.rs:21-35 | with branch conditions of one bit every run branches on zeros and ones, so the guarantee covers all runs |
| `Safety.StrictMatchIsExhaustive` | crates/lirien-verify/src/verifier/control_flow.rs:80-94 | no run leaves an accepted strict match for its default |
| `Safety.LookupsAlwaysSucceed` | crates/lirien-verify/src/verifier/control_flow.rs:27-31 | with phis total over incoming edges no lookup of an edge boolean fails, loops or not |
| `Safety.ScopeIsInhabited` | crates/lirien-verify/src/verifier/cfg.rs:16-104 | a branch on a boolean is such a function and has such a run |
| `Safety.WideConditionRuns` | crates/lirien-backend/src/cranelift/lower/control_flow.rs:59-62 | a branch on a byte holding 2 runs to its first target |
| `Safety.WideConditionIsMissed` | crates/lirien-verify/src/verifier/control_flow.rs:21-35 | no satisfying assignment gives that byte the value 2 and has the first target on: outside boolean conditions the correspondence fails |
| `LoopRuns.FirstPassSatisfies` | crates/lirien-verify/src/verifier/control_flow.rs:109-260 | with loops: the assignment of a run that ends or is about to return to a block it has passed, the step back included, satisfies the conditions exactly when the branch conditions passed were zero or one and every loop header with an edge from outside was entered by one |
| `LoopRuns.PhiSeenExactly` | crates/lirien-verify/src/verifier/control_flow.rs:122-260 | on such a run the demands on a phi are met exactly when its loop was entered from outside: operands of back edges are not asked for, accepted phis are equal |
| `LoopRuns.NaturalLoopsAreEntered` | crates/lirien-verify/src/verifier/control_flow.rs:122-139 | where loop headers dominate the blocks of their back edges every run enters its loops from outside |
| `LoopRuns.FirstPassIsSafe` | crates/lirien-verify/src/verifier/mod.rs:228-264 | an unsatisfiable query means that nothing a run does before it returns to a block it has passed violates the check, first iterations of loops included |
| `LoopRuns.VerifiedFirstPass` | crates/lirien-verify/src/verifier/mod.rs:179-264 | after a successful verification no such run violates a check or leaves a strict match for its default |
| `LoopRuns.PhiChecksExactly` | crates/lirien-verify/src/verifier/control_flow.rs:232-256 | a header phi gets a check for every earlier phi it is found equal to and every back edge with word operands, asking for the next values to differ, and no others |
| `LoopRuns.AllChecksExactly` | crates/lirien-verify/src/verifier/control_flow.rs:200-260 | the checks registered for a function are those of all its phis |
| `LoopRuns.LoopScopeIsInhabited` | crates/lirien-verify/src/verifier/control_flow.rs:109-260 | a loop with one phi is such a function and goes round in such a run |
| `LoopRuns.OnlyFirstPassIsSeen` | crates/lirien-verify/src/verifier/control_flow.rs:122-187 | in every satisfying assignment a header phi whose block is on has the value of an operand from outside its loop, along an edge that is on |
| `LoopRuns.LaterPassIsMissed` | crates/lirien-verify/src/verifier/control_flow.rs:122-187 | a check that holds, and a run that violates it on its second time round the loop |
| `LoopEquality.DetectEquality` | crates/lirien-verify/src/verifier/control_flow.rs:402-548 | where every value has one definition the detector answers true exactly when the phis have the same predecessors, at least one of them a back edge, operands on entry edges are the same value or literals of one number, and on back edges both phis stay or are advanced by additions, or subtractions, of steps that are the same value or literals of one number |
| `LoopEquality.AcceptsExactly` | crates/lirien-verify/src/verifier/control_flow.rs:454-542 | the test by looked-up definitions is the one stated on the instructions the blocks contain |
| `LoopEquality.AcceptedPhisAreEqual` | crates/lirien-verify/src/verifier/control_flow.rs:402-548 | two accepted header phis of equal width are equal at the end of every block from the first arrival at the header on, for any number of iterations, nesting and back edges |
| `LoopEquality.UpdatesAgree` | crates/lirien-verify/src/verifier/control_flow.rs:466-548 | equal phis advanced by equal steps stay equal, added on either side or subtracted |
| `Reachability.IsReachable` | crates/lirien-verify/src/verifier/control_flow.rs:550-609 | the queue search answers yes exactly when a walk leads from the start to the target |
| `BlockOrder.Search.Visit` | crates/lirien-backend/src/cranelift/mod.rs:706-721 | while the stack of open blocks is a walk from the entry, visiting keeps finished blocks free of dominators of later ones and closes them under successors |
| `BlockOrder.ReversePostOrder` | crates/lirien-backend/src/cranelift/mod.rs:703-724 | the order lists exactly the blocks reachable from the entry, each once, none before a block that dominates it |
| `BlockOrder.Finish` | crates/lirien-backend/src/cranelift/mod.rs:720-720 | when a block is finished all its dominators are still open |
| `BlockOrder.DominatorIsEarlier` | crates/lirien-backend/src/cranelift/mod.rs:703-724 | a dominator of a listed block is listed earlier |
| `BlockOrder.LookedUpIsLowered` | crates/lirien-backend/src/cranelift/mod.rs:726-806 | in strict SSA every operand lowering looks up, phi operands of outgoing edges included, is an argument, a phi, or was lowered before |
| `BlockOrder.LowerBlocks` | crates/lirien-backend/src/cranelift/mod.rs:726-806 | lowering in this order finds every operand on strict SSA; when it gets through, every operand had been lowered before its use |
| `PhiLowering.CodegenContext.DeclarePhi` | crates/lirien-backend/src/cranelift/mod.rs:678-698 | a phi gets fresh consecutive parameters of its block, as many as its shape asks for, and no other record changes |
| `PhiLowering.CodegenContext.DeclarePhis` | crates/lirien-backend/src/cranelift/mod.rs:673-701 | every phi is recorded the way its shape asks for, with that many parameters; the parameters of a block are those of its phis in order, all different, and no two blocks share one |
| `PhiLowering.CodegenContext.DeclareBlock` | crates/lirien-backend/src/cranelift/mod.rs:677-700 | the phis of one block are recorded and get fresh parameters in order; other blocks and values keep theirs |
| `PhiLowering.DeclarationKept` | crates/lirien-backend/src/cranelift/mod.rs:726-806 | recording other values while blocks are lowered leaves the declaration intact |
| `PhiLowering.CodegenContext.EdgeArgs` | crates/lirien-backend/src/cranelift/lower/control_flow.rs:17-27 | the arguments of an edge are the registers of its phi operands, in phi order |
| `PhiLowering.CodegenContext.LowerMatch` | crates/lirien-backend/src/cranelift/lower/control_flow.rs:64-109 | for every selector value the switch, directly or through a trampoline, reaches the block the match names with that edge's arguments |
| `PhiLowering.CodegenContext.LowerBranch` | crates/lirien-backend/src/cranelift/lower/control_flow.rs:30-62 | control reaches the true target exactly for non-zero conditions, with that edge's arguments |
| `PhiLowering.CodegenContext.LowerTerminator` | crates/lirien-backend/src/cranelift/lower/control_flow.rs:12-109 | generated code of every terminator goes where the terminator goes, with the edge's arguments; lowering fails exactly when the arguments of some target cannot be formed |
| `PhiPassing.LinesUpExactly` | crates/lirien-backend/src/cranelift/lower/control_flow.rs:17-27 | arguments line up with parameters position by position exactly when each phi's operand takes as many registers as the phi has parameters |
| `PhiPassing.CountsMatchExactly` | crates/lirien-backend/src/cranelift/lower/utils.rs:12-37 | for a phi and an operand of one shape, whatever is recorded for the operand, as many arguments as parameters are passed exactly when a buffer has its length recorded, a tensor its dimensions and none of them, an unpacked tuple is one register, and a named tuple is unpacked into its fields or, with one field, held in memory |
| `PhiPassing.PhiOperand` | crates/lirien-backend/src/cranelift/mod.rs:678-698 | a phi read by a phi, as in loops and swaps, arrives whole for every shape but tensors, which have no dimensions recorded whatever their rank |
| `PhiPassing.TensorPhiDoesNotLineUp` | crates/lirien-backend/src/cranelift/lower/utils.rs:26-34 | a phi over one-dimensional tensors is declared with one parameter and passed two arguments |
| `PhiPassing.TensorPhiOfPhiFails` | crates/lirien-backend/src/cranelift/lower/utils.rs:26-34 | two tensor phis that swap cannot be passed at any rank, zero included |
| `PhiPassing.TuplePhiDoesNotLineUp` | crates/lirien-backend/src/cranelift/lower/utils.rs:15-19 | a phi over tuples is declared with one parameter and passed two when its operand is unpacked into two registers |
| `PhiPassing.NamedTupleInMemoryDoesNotLineUp` | crates/lirien-backend/src/cranelift/lower/intrinsics.rs:44-50 | a phi over named tuples of three fields is declared with three parameters and passed one when its operand came back through memory |
| `PhiPassing.BufferWithoutLengthFails` | crates/lirien-backend/src/cranelift/lower/utils.rs:20-25 | an edge into a phi over buffers fails when the operand has no length recorded |
| `PhiPassing.KeepsMeaningExactly` | crates/lirien-backend/src/cranelift/lower/control_flow.rs:17-27 | whatever registers and memory hold, the phi holds after the jump what the operand held before exactly when the operand is a buffer with its length, a tensor with recorded but no dimensions, an array without a stride, a tuple in memory, a named tuple unpacked into its fields, or any other value recorded at all |
| `PhiPassing.SingletonTupleIsLost` | crates/lirien-backend/src/cranelift/lower/tuples.rs:24-75 | a tuple of one element lines up and is lost: the operand passes the element, the phi is read behind an address |
| `PhiPassing.SliceIsLost` | crates/lirien-backend/src/cranelift/lower/memory.rs:645-715 | a sliced array lines up and is lost: its stride is not passed |
| `PhiPassing.JoinsExactly` | crates/lirien-backend/src/cranelift/lower/tuples.rs:11-75 | by what each kind of producing instruction records, an operand arrives whole exactly as a table over shapes and producers says: no buffers from calls, no tuples but phis, parts of memory and large results, no named tuples from memory |
| `PhiPassing.ArgsFormExactly` | crates/lirien-backend/src/cranelift/lower/utils.rs:12-37 | the arguments of an edge can be formed exactly when every operand has the records its shape asks for |
| `PhiPassing.PhiIsPassed` | crates/lirien-backend/src/cranelift/lower/control_flow.rs:17-28 | after a jump the parameters of each phi hold what its operand's registers held before, swaps and loops included |
| `PhiPassing.EdgeRefinesPhis` | crates/lirien-backend/src/cranelift/lower/control_flow.rs:12-109 | passing operands that arrive whole refines reading all phis at once: places, in registers or in memory, that hold the store before it hold the store with the phis bound after it |
| `PhiPassing.LoweringSucceeds` | crates/lirien-backend/src/cranelift/lower/control_flow.rs:17-27 | the arguments for a target are formed exactly when all operands of the edge have the records their shape asks for |
| `PhiPassing.CodeRefinesPhis` | crates/lirien-backend/src/cranelift/lower/control_flow.rs:12-109 | leaving SSA preserves meaning: after the declaration, the code of a terminator reaches the block the terminator names with one argument per parameter, and passing operands that arrive whole represents that block's phis all read at once, other blocks' phis and untouched values kept; swaps, loops and trampolines included |
| `RowMajor.FlatIndex` | python/lirien/types/memory.py:207-215 | the reversed stride loop computes the row-major cell of any multi-index, in range or not, and fails when there are too few indices |
| `RowMajor.FlatInBounds` | python/lirien/types/memory.py:207-225 | in-range multi-indices land inside the buffer |
| `RowMajor.DigitsOfFlat` | crates/lirien-backend/src/cranelift/mod.rs:299-307 | decomposing the cell of an in-range multi-index by division and remainder gives the multi-index back |
| `RowMajor.FlatOfDigits` | crates/lirien-backend/src/cranelift/mod.rs:299-307 | every cell is the cell of its decomposition, which is in range: with the previous row, a bijection |
| `RowMajor.FlatInjective` | python/lirien/types/memory.py:207-225 | different in-range multi-indices have different cells |
| `RowMajor.FlatIsOrdered` | python/lirien/types/memory.py:207-225 | cells come in the lexicographic order of their in-range multi-indices: the last index moves fastest |
| `RowMajor.Tensor.GetItem` | python/lirien/types/memory.py:207-215 | reading an in-range multi-index gives the tensor's value there; an access fails exactly when the flat cell is outside the buffer on either side, and a negative cell counts from the end |
| `RowMajor.Tensor.SetItem` | python/lirien/types/memory.py:217-225 | exactly the cell of the access is replaced, a negative one counted from the end; writing an in-range multi-index changes the tensor there and at no other in-range multi-index |
| `RowMajor.OutOfRangeAliases` | python/lirien/types/memory.py:207-215 | an index out of range along one axis is not rejected as such: row 0, column 5 of a 2 by 3 tensor is row 1, column 2 |
| `RowMajor.VerifierIndex` | crates/lirien-verify/src/verifier/memory.rs:393-417 | the verifier's 64-bit loop computes the same cell modulo 2 to the 64 |
| `RowMajor.VerifierIndexIsCell` | crates/lirien-verify/src/verifier/memory.rs:393-424 | for tensors of at most 2 to the 63 cells it is the same cell, read as a signed number |
| `Broadcast.BroadcastTensor` | crates/lirien-backend/src/cranelift/mod.rs:263-314 | target cell n holds the source cell at the projection of n's multi-index; cells are written once each and every read is inside the source |
| `Broadcast.BroadcastShows` | crates/lirien-backend/src/cranelift/mod.rs:263-314 | for every in-range target multi-index the result shows the source at the projected multi-index |
| `Broadcast.CompatibleCanRead` | crates/lirien-backend/src/cranelift/mod.rs:289-294 | compatible shapes, axes of size zero included, meet what the kernel needs: an empty source is read only for an empty target |
| `Broadcast.CompatibleProjects` | crates/lirien-backend/src/cranelift/mod.rs:289-294 | for compatible shapes an axis of size one is read at 0 and every other axis keeps its coordinate |
| `Broadcast.ProjectInRange` | crates/lirien-backend/src/cranelift/mod.rs:308-310 | the projected multi-index is in range of a source with positive sizes |
| `Broadcast.DotIsFlat` | crates/lirien-backend/src/cranelift/mod.rs:284-297 | the strided sum of target coordinates is the source cell of the projected multi-index |
| `Broadcast.TargetStrides` | crates/lirien-backend/src/cranelift/mod.rs:278-297 | the loop from the right gives an axis the source stride where the sizes are equal and 0 elsewhere |
| `Broadcast.SourceOffset` | crates/lirien-backend/src/cranelift/mod.rs:299-309 | dividing down the target sizes visits exactly the coordinates of the cell |
| `Layout.RoundUpIsLeast` | crates/lirien-ir/src/ir/types.rs:273-274 | for alignments that are powers of two the mask computes the least multiple at or above the offset |
| `Layout.AlignIsPow2` | crates/lirien-ir/src/ir/types.rs:335-403 | every alignment is a power of two |
| `Layout.MaxAlignIsPow2` | crates/lirien-ir/src/ir/types.rs:352-396 | the alignment of an aggregate is a multiple of the alignment of each field |
| `Layout.SizeIsAligned` | crates/lirien-ir/src/ir/types.rs:244-333 | every size is a multiple of the alignment |
| `Layout.AlignOf` | crates/lirien-ir/src/ir/types.rs:335-403 | the recursive match with its maximum loops computes the alignment |
| `Layout.SizeOf` | crates/lirien-ir/src/ir/types.rs:244-333 | the recursive match with its offset loops computes the size, padding included, that the next row describes |
| `LayoutSizes.SizeHasRoom` | crates/lirien-ir/src/ir/types.rs:244-403 | every type has room for its parts and no more: fields and the end of an aggregate lie at the first aligned offset after what precedes them, element i of an array at i times the element's size with the last ending at the array's, a tagged payload at the first aligned offset after the tag with the whole the least multiple that holds every payload; alignments are the greatest among the parts |
| `LayoutSizes.KnownLayouts` | crates/lirien-ir/src/ir/types.rs:268-297 | an optional 64-bit integer takes 16 bytes, a tuple of a byte, a 64-bit and a 16-bit integer 24 |
| `Layout.FieldsApart` | crates/lirien-ir/src/ir/types.rs:268-280 | fields are aligned, follow each other without overlap and end inside the aggregate |
| `Layout.LeafOffsets` | crates/lirien-verify/src/verifier/mod.rs:22-56 | the collected leaves are those already collected followed by the leaves of the type |
| `Layout.LeavesAreWellPlaced` | crates/lirien-verify/src/verifier/mod.rs:22-56 | the flattened leaves of an aligned value are aligned, in order, disjoint and inside its size |
| `LayoutSizes.LeavesAreFields` | crates/lirien-verify/src/verifier/mod.rs:22-56 | the leaves are exactly the fields that are no aggregates, at any depth, each at the sum of the offsets on its path |
| `Layout.GetFieldOffset` | crates/lirien-ir/src/builder/mod.rs:64-76 | the offset of the first field with the name, or nothing when the record or the field is missing |
| `Layout.FieldAt` | crates/lirien-ir/src/optimization/type_propagation.rs:585-598 | the first field that starts at the offset, or none does |
| `Layout.SearchInvertsExactly` | crates/lirien-ir/src/optimization/type_propagation.rs:585-598 | searching for a field's offset finds that field exactly when the field before it starts strictly earlier |
| `Layout.NameComesBackExactly` | crates/lirien-ir/src/optimization/type_propagation.rs:585-598 | searching for the offset looked up for a name finds a field of that name, and then the named one, exactly when the field before it starts strictly earlier |
| `Layout.SearchInvertsAfterData` | crates/lirien-ir/src/optimization/type_propagation.rs:585-598 | so it does whenever the field before has positive size |
| `Layout.EmptyFieldShadows` | crates/lirien-ir/src/optimization/type_propagation.rs:585-598 | after an empty field the search finds the empty field instead |
| `GrowableList.List.constructor` | crates/lirien-backend/src/cranelift/mod.rs:323-329 | a new list is empty and owns no buffer |
| `GrowableList.List.Append` | crates/lirien-backend/src/cranelift/mod.rs:444-469 | the element is added at the end and all others stay; the buffer is replaced exactly when it is full, with capacity 4 first and twice the old one after |
| `GrowableList.List.Grow` | crates/lirien-backend/src/cranelift/mod.rs:447-465 | the new buffer keeps all elements and its capacity is four times a power of two |
| `GrowableList.List.Get` | python/lirien/types/memory.py:337-367 | an in-range index, negative ones counted from the end, gives the element; any other is refused |
| `GrowableList.List.Set` | python/lirien/types/memory.py:369-397 | an in-range index replaces that element and no other; any other changes nothing |
| `GrowableList.ElementsWrite` | crates/lirien-backend/src/cranelift/mod.rs:492-506 | overwriting one slot of the byte buffer replaces one element |
| `GrowableList.RunOn` | crates/lirien-backend/src/cranelift/mod.rs:444-508 | any mix of operations answers like the abstract sequence, and n appends move fewer than 2n elements in total |

## Left out

- The Python front end that drives the builder, type propagation, interval analysis, the refinement
  parser and callee contracts: their results (types, widths, tensor-typed values) are parameters.
- Builder bookkeeping of value types, source locations and loop and try stacks, and use of a builder
  after it has reported an unbound variable, which the front end abandons.
- SsaBuilder.CFGBuilder.WriteVariable: requires that no sealed successor has already read the variable
  through the block, the discipline under which the front end fills blocks.
- SsaBuilder.CFGBuilder.LinkBlocks: requires that a sealed target has not been read on entry, and that no
  edge leads back to the entry block.
- SsaBuilder.CFGBuilder.AddInstruction: requires a result of its own, as the front end takes a new value for
  every instruction; the builder itself would accept a second definition.
- BuiltSsa.BuiltIsStrict: takes from the front end that the terminator's targets are recorded successors of
  its block, which for `while a and b` they are not.
- BuiltSsa.RunHoldsLastStore: for functions in that strict form; BuiltSsa.UnrecordedEdgeLosesStore is what
  happens otherwise.
- LivenessSoundness.RunsAgree: for functions whose terminators name recorded successors;
  LivenessSoundness.UnrecordedTargetIsMissed is what happens otherwise.
- LivenessSoundness.LiveOutSuffices: for the same functions.
- DeadCode.RunsPreserved: the machine there never traps; what becomes of traps is DeadTraps.TrapsPreserved.
- Optimization.Optimize: type propagation before the three passes and interval embedding after them are not run.
- Iteration order of hash maps: loops over them pick any remaining element, and results do not depend on it.
- ConstantFolding.RunsPreserved: arithmetic wraps at 64 bits as in a release build; a debug build stops on
  overflow instead. Results wider than 64 bits or wider than their operands are excluded, as typing does.
- Floating-point rounding: floats are exact reals. Transcendental and SIMD instructions are uninterpreted.
- FusionMeaning.RunsPreserved: tensors are values; a store into a tensor between a fused definition and its
  use is not seen as changing it, which is also how the verifier models stores.
- Translation.TranslationContext.Verify: preconditions, refinements, user loop invariants and derived intervals
  are not asserted; memory instructions and calls have no equation, their checks are given.
- Translation.TranslationContext.TranslateInstruction: bitwise operations, shifts, divisions, conversions,
  minima and the like have no equation; like every instruction without one they may compute anything, and the
  checks registered for them, of divisors for instance, are given.
- Translation.TranslationContext.TranslateInstructions: the same equations are absent.
- Translation.TranslationContext.AssertCfgConstraints: parallel loops and the edges to their bodies are not modelled.
- Translation.TranslationContext.DeclareConstants: as above, no edges to bodies of parallel loops.
- Translation.TranslationContext.TranslatePhi: the equal-length assertion for buffers at loop headers is missing.
- Safety.ProvedIsSafe: stated for functions without cycles whose match cases and branches have distinct
  targets, as cases that share a target share one edge boolean; LoopRuns.FirstPassIsSafe is what holds with
  cycles. Assertions of the program are not modelled: the verifier assumes them before it checks them.
- LoopRuns.FirstPassIsSafe: covers a run up to its first return to a block it has passed, as
  LoopRuns.LaterPassIsMissed shows; all iterations are covered for accepted equalities. Phis accepted as
  equal have one width there, as the solver's equality demands, and loops are natural.
- The caches of instructions and reachability kept between functions; lookups are done afresh.
- The translated machine instructions themselves, function parameters and returns, and malloc failing or
  sizes overflowing: registers, buffers and offsets are unbounded numbers.
- PhiPassing.KeepsMeaningExactly: a phi and its operand have one shape, as their common type gives them.
- PhiPassing.JoinsExactly: literals are made of parts that arrive whole; an array of aggregates taken out of an
  unpacked tuple counts as a record.
- PhiPassing.CodeRefinesPhis: that values other than phis keep out of a block's parameters is a condition on
  their registers, which instruction lowering, not part of this model, assigns.
- Broadcast.BroadcastTensor: the buffer holds exactly the source's cells, as the callers pass it; overflow of
  the cell count is not modelled.
- GrowableList.List.Append: every call passes the list's one element size, which is positive; the buffer is a
  fresh array on growth, and views into the old buffer are not modelled. Compiled code refuses negative
  indices, the Python wrapper counts them from the end; the model has the wrapper's form.
- Layout.SizeOf: enum and optional payloads are not flattened into leaves, as in the code; tuple offsets of the
  verifier's own tuple translation, which are not aligned, are not modelled.
- String operations, reductions, matrix products and the remaining element-wise kernels of the runtime.
