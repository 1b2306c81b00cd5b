# fth in Dafny

fth is an embeddable Forth with its own compiler, virtual machine and object library. This
project models its hardest parts and proves what they are for.

**Compiler, virtual machine and jump optimizer.** `Machine` is the inner interpreter as a step
function over cells; `VirtualMachine` is the object that runs it on two array stacks and overwrites its
own code.
`Emitter` states what each compiling word does to a definition, `Compiler` runs the words on the
raw data stack with its tags and counts. `Source` gives structured Forth a meaning of its own,
without cells or addresses. `WellFormed` covers every sequence of compiling words; `Layout`,
`Simulation` and `Correctness` lead from structured source to what the self-modifying machine
does; `Optimizer` shows that rewriting jumps at any moment of a run changes nothing.
`Conditionals` says which cells IF, UNTIL and WHILE take for false, `CountedLoops` how often DO
loops run, `FuelMonotone` that a program has one meaning.

**Argument permutation.** `Rotation` is gcd and permute_args, with the number theory of their
cycles; `Getopt` is the scanner that drives them over whole runs. `Arithmetic` and `Wrappers` are
shared helpers.

**Arrays.** `GapBuffer` is the sliding window in a reallocated buffer, `Assoc` the sorted table on
top of it.

**Week dates, names and numbers.** `IsoWeek` is %V and %G; `Wordlist` and `Dictionary` are the
hashed index, shadowing and FORGET; `Numerals` is printing and reading of numbers.

Code that works by changing state is a class or a method with loops, each proved against a
function of the old state; the theorems are about those functions and their runs.

## Model

| member | source | states |
|---|---|---|
| `Machine.RunSplit` | ficl/vm.c:291-455 | a run of n+m steps is a run of n steps continued for m, and a machine that has stopped stays stopped |
| `Optimizer.Optimize` | ficl/vm.c:151-186 | the in-place rewriting terminates (the set of branches still to be checked strictly shrinks), leaves every other cell and every finished branch alone, and every branch of the result lands on an instruction |
| `Optimizer.OptimizeCompat` | ficl/vm.c:151-186 | at any branch of any partly optimized memory, rewriting keeps the relation to the original code: every branch target lies on the chain of unconditional branches from its original target, cyclic chains included |
| `Optimizer.StepMatches` | ficl/vm.c:1042-1089 | one step on optimized code is one step on the original code followed by a walk along unconditional branches, and stops exactly when that step does |
| `Optimizer.SelfRunIsRun` | ficl/vm.c:1042-1089 | every run of the self-modifying interpreter is a run of the plain one on the original code, of at least as many steps |
| `Optimizer.SelfModificationPreservesRuns` | ficl/vm.c:151-186 | from any state and any partly optimized memory, the self-modifying interpreter stops with an outcome if and only if the plain one on the original code does |
| `Optimizer.OptimizeSettles` | ficl/vm.c:151-186 | every branch already finished jumps straight to the end of its chain, if the chain has one; rewriting keeps this |
| `Optimizer.OptimizedBranchIsDirect` | ficl/vm.c:151-186 | a rewritten branch whose chain reaches a non-branch instruction goes straight there, a second rewriting changes nothing, and the number of checked branches strictly falls |
| `Optimizer.TrailCollapses` | ficl/vm.c:151-186 | in terms of cells: a checked BRANCH or BRANCH0 that leads along any number of unconditional branches is afterwards in its unchecked form and its offset is that to the end of the trail |
| `Optimizer.RunsStaySettled` | ficl/vm.c:1042-1089 | after any number of passes of a run, memory is still compatible with the original and all finished branches are direct |
| `VirtualMachine.Vm.OptimizeJumpToJump` | ficl/vm.c:151-186 | the recursive method that overwrites the code array computes exactly Optimize |
| `VirtualMachine.Vm.Plain` | ficl/vm.c:1033-1223 | on two arrays with their numbers of cells in use, the one-cell cases (return stack, loop indices, leave, unloop, locals 0 and 1, exit, call) do what the step function says on unbounded stacks, or report that a stack is full exactly when the result does not fit |
| `VirtualMachine.Vm.WithOperand` | ficl/vm.c:1042-1195 | the two-cell cases (literal, branches, of, do, loop, locals) likewise refine the step function on arrays; (branch0) takes the branch exactly on zero, #f and nil |
| `VirtualMachine.Vm.StartLoop` | ficl/vm.c:1115-1153 | (do) moves limit and index to the return stack above the leave address, or finds it full |
| `VirtualMachine.Vm.FinishLoop` | ficl/vm.c:1155-1195 | (loop) and (+loop) either drop the three loop cells and go on or step the index and branch back |
| `VirtualMachine.Vm.PopLocal` | ficl/vm.c:508-520 | a store to a local changes that frame cell and nothing else on the return stack |
| `VirtualMachine.Vm.LinkFrame` | ficl/stack.c:214-219 | the frame pointer is pushed, the frame set behind it, and room for the locals made |
| `VirtualMachine.Vm.UnlinkFrame` | ficl/stack.c:227-232 | the return stack is cut below the frame and the saved frame pointer restored |
| `VirtualMachine.Vm.Pass` | ficl/vm.c:291-455 | one pass optimizes a checked branch in place, leaving its unchecked form, then executes it on the rewritten memory |
| `VirtualMachine.Vm.InnerLoop` | ficl/vm.c:291-455 | any number of passes compute the self-modifying run, registers, stacks and memory; the machine reports overflow if and only if some state of that run, within the passes allowed, does not fit the stacks |
| `Compiler.Definition.constructor` | ficl/primitives.c:200-219 | `:` starts a definition whose cell-level stack is the flattening of the control-flow items |
| `Compiler.Definition.PopMarked` | ficl/primitives.c:122-139 | a tag is matched and its address taken off, or the word fails |
| `Compiler.Definition.ResolveBackBranch` | ficl/primitives.c:141-151 | the offset back to the target on the stack is appended |
| `Compiler.Definition.ResolveForwardBranch` | ficl/primitives.c:158-168 | the pending operand is patched to land at the end of the code |
| `Compiler.Definition.IfWord` | ficl/primitives.c:621-632 | IF on raw stack cells is the specified step on control-flow items: a conditional branch whose pending operand is recorded as an orig |
| `Compiler.Definition.ElseWord` | ficl/primitives.c:645-662 | ELSE on raw cells is the specified step: a pending jump, the old orig patched to land behind it; it fails exactly on another tag |
| `Compiler.Definition.ThenWord` | ficl/primitives.c:671-676 | THEN on raw cells is the specified step: the orig is patched to land here; it fails exactly on another tag |
| `Compiler.Definition.BeginWord` | ficl/primitives.c:1860-1863 | BEGIN on raw cells is the specified step: this address is recorded as a dest |
| `Compiler.Definition.BackWord` | ficl/primitives.c:1865-1905 | UNTIL and AGAIN on raw cells are the specified steps: a branch back to the dest; they fail exactly on another tag |
| `Compiler.Definition.WhileWord` | ficl/primitives.c:1873-1884 | WHILE over a dest is the specified step: the two rolls leave the new orig below the dest |
| `Compiler.Definition.Roll` | ficl/stack.c:402-430 | a roll by n moves the n-th cell to the top, and by -n the top cell n places down, by loops over cells |
| `Compiler.Definition.RepeatWord` | ficl/primitives.c:1886-1896 | REPEAT on raw cells is the specified step: branch back to the dest, orig patched behind it; it fails exactly when either tag is wrong |
| `Compiler.Definition.DoWords` | ficl/primitives.c:1057-1089 | DO and ?DO on raw cells are the specified steps: a pending leave address and the loop's head are recorded |
| `Compiler.Definition.LoopWords` | ficl/primitives.c:1091-1107 | LOOP and +LOOP on raw cells are the specified steps: offset back to the head, leave address patched to the cell after it |
| `Compiler.Definition.CaseWord` | ficl/primitives.c:688-697 | CASE on raw cells is the specified step: an item with no fixups |
| `Compiler.Definition.OfWords` | ficl/primitives.c:742-767 | OF on raw cells is the specified step: a pending test, and a pending FALLTHROUGH patched to land behind it |
| `Compiler.Definition.EndOfWord` | ficl/primitives.c:769-805 | ENDOF on raw cells is the specified step: a pending jump added to the case's fixups, the test patched behind it |
| `Compiler.Definition.FallthroughWord` | ficl/primitives.c:807-838 | FALLTHROUGH on raw cells is the specified step: a pending jump of its own, the test patched behind it |
| `Compiler.Definition.PatchAll` | ficl/primitives.c:699-740 | the loop of ENDCASE pops and patches exactly the counted fixups |
| `Compiler.Definition.EndCaseWord` | ficl/primitives.c:699-740 | ENDCASE on raw cells is the specified step: DROP, then every fixup and a pending FALLTHROUGH patched behind it |
| `Compiler.Definition.ExitWords` | ficl/primitives.c:250-264 | EXIT on raw cells is the specified step: a frame is unlinked first if there are locals |
| `Compiler.Definition.SemiColonWord` | ficl/primitives.c:221-239 | `;` on raw cells is the specified step: it needs the colon on top, unlinks a frame and ends compilation |
| `Compiler.Definition.LiteralWord` | ficl/primitives.c:975-1024 | LITERAL is the specified step: short tokens for -16 to 16, otherwise the value inline |
| `Compiler.Definition.NewLocalWord` | ficl/primitives.c:2529-2581 | a new local is the specified step: the first one links a frame, each is stored into its cell, at most 2048 |
| `Compiler.Definition.LocalsDoneWord` | ficl/primitives.c:2529-2581 | the end of the locals list patches the frame size |
| `Compiler.Definition.LocalWords` | ficl/primitives.c:2466-2638 | a local's name and TO are the specified steps: fast forms for 0 and 1, the index inline otherwise, failure for an unknown one |
| `Compiler.Definition.CompileToken` | ficl/vm.c:2948-2952 | an ordinary word is the specified step: its instruction is appended |
| `Compiler.Definition.Run` | ficl/vm.c:2912-2960 | running any sequence of compiling words on raw cells computes the specified definition, and fails exactly when that does |
| `WellFormed.WordKeeps` | ficl/primitives.c:111-239 | every compiling word keeps the invariant: whole instructions, every control operand lands or is recorded as pending exactly on the control stack |
| `WellFormed.WordsKeep` | ficl/primitives.c:111-239 | so the invariant holds after any sequence of words, also in the middle of a definition or after one that never gets its `;` |
| `WellFormed.WordFrame` | ficl/primitives.c:111-239 | no compiling word touches memory before the definition or instruction cells already emitted, and operands stay operands |
| `WellFormed.BoundariesAreOps` | ficl/primitives.c:111-239 | a landing place is an instruction boundary counted from the start of the definition |
| `WellFormed.CompiledDefinitionIsWellFormed` | ficl/primitives.c:111-239 | for every sequence of words from `:` to a successful `;`, not only nested ones: every branch offset and leave address lands on an instruction boundary of that definition; a placeholder is left if and only if a local is declared after the last end-of-locals message, and the frame size equals the number of locals if and only if none is |
| `WellFormed.StepStaysInside` | ficl/vm.c:1033-1223 | running such a definition: whatever the stacks hold, a step from one of its instructions goes to one of its instructions, never to an operand or past `;`, unless it calls or takes an address from the return stack; the leave address that (do) puts there is one of its instructions, too |
| `WellFormed.SizeStep` | ficl/primitives.c:2529-2581 | every word keeps track of the frame size: right after an end-of-locals message, too small after a new local, untouched by other words |
| `WellFormed.ManyLocals` | ficl/primitives.c:2560-2561 | a definition takes 2048 locals and no more |
| `WellFormed.UnfinishedLocals` | ficl/primitives.c:2561-2581 | the failing input: one local and no end-of-locals message leave a frame of no cells, and the first store runs outside it |
| `Layout.Emits` | ficl/primitives.c:621-674 | the words of any structured statement append exactly its code, patched, and leave the control stack as it was |
| `Layout.EmitsClauses` | ficl/primitives.c:688-838 | the words of any number of CASE clauses append exactly their code with every fixup resolved |
| `Layout.EmitsFallen` | ficl/primitives.c:807-838 | a pending FALLTHROUGH is resolved to the next body behind its test, or past the DROP if it was last |
| `Layout.EmitsDefinition` | ficl/primitives.c:200-264 | from `:` to `;`, locals included, a definition compiles to exactly its code |
| `Simulation.Sim` | ficl/vm.c:1033-1195 | for every statement, state and return stack below, the compiled cells end as the statement means: same data stack, same return stack, ip just past the code, at the leave address, or at the caller; they throw when it throws, and still run when it is not done |
| `Simulation.SimIterations` | ficl/vm.c:1115-1195 | the body of a DO loop is run again and again as the source says; LEAVE from any depth reaches the cell after the loop with the loop cells gone |
| `Simulation.SimCase` | ficl/vm.c:1091-1113 | the first clause whose test equals the selector runs with the selector gone; without one the selector is dropped once, by the final DROP |
| `Simulation.SimEntered` | ficl/vm.c:1091-1113 | an entered body ends past the DROP, or enters the next body without its test when it falls through |
| `Simulation.SimExit` | ficl/vm.c:1033-1040 | EXIT and `;` unlink the frame, if any, and return to the caller whatever is on the definition's own return stack |
| `Simulation.SimLocal` | ficl/vm.c:495-520 | a local reads back its last store, through the fast forms for 0 and 1 and the indexed form alike |
| `Simulation.SimDef` | ficl/vm.c:468-520 | a call of a definition with any number of locals restores the caller's return stack and frame on every exit path |
| `Simulation.SimCall` | ficl/vm.c:1786-1791 | a call inside a definition leaves the caller's locals and return stack as they were |
| `Correctness.LoadInstalls` | ficl/primitives.c:200-239 | compiling a program word by word puts every definition at its entry address |
| `Correctness.LoadSucceeds` | ficl/primitives.c:200-239 | every program whose names are in scope can be compiled |
| `Correctness.PlainRunsAgree` | ficl/vm.c:291-455 | the plain interpreter on compiled code stops with an outcome if and only if the source call has that result |
| `Correctness.CompiledProgramsRunAsMeant` | ficl/vm.c:151-186 | compiler correctness, end to end: every compiled program, on the self-modifying interpreter and from memory that earlier runs may have optimized, halts with a data stack, throws or runs on if and only if the source does, with return stack and frame restored |
| `Correctness.CompiledMemoryIsFresh` | ficl/vm.c:151-186 | freshly compiled memory satisfies what the optimizer's theorems ask for |
| `Conditionals.IfMeans` | ficl/vm.c:1066-1075 | IF runs its part unless the flag is zero, #f or nil, spelled out cell by cell |
| `Conditionals.IfElseMeans` | ficl/vm.c:1066-1075 | IF ELSE chooses the second part on zero, #f and nil, the first on every other cell |
| `Conditionals.UntilMeans` | ficl/vm.c:1066-1075 | UNTIL repeats on zero, #f and nil and ends on every other cell |
| `Conditionals.WhileMeans` | ficl/vm.c:1066-1075 | WHILE ends its loop on zero, #f and nil and runs the body on every other cell |
| `Conditionals.IfOnMachine` | ficl/vm.c:232-234 | the compiled cells of IF agree with that choice |
| `Conditionals.IfElseOnMachine` | ficl/vm.c:232-234 | the compiled cells of IF ELSE agree with that choice |
| `Conditionals.UntilOnMachine` | ficl/vm.c:232-234 | the compiled cells of BEGIN UNTIL agree with that choice |
| `Conditionals.WhileOnMachine` | ficl/vm.c:232-234 | the compiled cells of BEGIN WHILE REPEAT agree with that choice |
| `Conditionals.CompiledChooser` | ficl/vm.c:232-234 | end to end: IF 1 ELSE 2 THEN, compiled and run on the self-modifying interpreter, halts with 2 on zero, #f and nil, with 1 on every other cell, and in no other way |
| `CountedLoops.IterationsAre` | ficl/vm.c:1155-1195 | given what each iteration leaves, a DO loop visits exactly the listed indices in order |
| `CountedLoops.DoLoopRunsMaxTimes` | ficl/vm.c:1115-1195 | given what each iteration leaves, DO .. LOOP from s to l runs exactly max(1, l - s) times with I = s, s + 1, ..., and ?DO zero times when s = l |
| `CountedLoops.PlusLoopStops` | ficl/vm.c:1155-1195 | given what each iteration leaves, +LOOP stops at the first index at or past the limit (step not negative) or below it (step negative) |
| `CountedLoops.TraceExists` | ficl/vm.c:1155-1195 | a body that works on every state of an invariant has such a trace of any length |
| `CountedLoops.DoLoopIterates` | ficl/vm.c:1115-1195 | DO or ?DO .. LOOP around such a body has the body's effect max(1, l - s) times over (?DO: none when s = l), with no trace assumed |
| `CountedLoops.PlusLoopIterates` | ficl/vm.c:1155-1195 | +LOOP around such a body has the body's effect n times over, n being the first iteration whose test ends the loop |
| `CountedLoops.DoLoopOnMachine` | ficl/vm.c:1115-1195 | the compiled cells of DO .. LOOP do that on the machine and go on behind the loop with the return stack as it was |
| `CountedLoops.PlusLoopGoesOn` | ficl/vm.c:1155-1195 | +LOOP around such a body, no iteration of which ends it, is finished within no amount of fuel |
| `CountedLoops.PlusLoopEndsIff` | ficl/vm.c:1115-1195 | +LOOP around such a body ends if and only if the test of some iteration ends it (or ?DO skips it) |
| `CountedLoops.PlusLoopOnMachine` | ficl/vm.c:1115-1195 | the compiled cells of +LOOP have the body's effect as often as that and go on behind the loop with the return stack as it was |
| `CountedLoops.PlusLoopRunsForever` | ficl/vm.c:1155-1195 | if no iteration's test ends the loop, the machine never stops on the compiled cells |
| `FuelMonotone.MeaningIsUnique` | ficl/vm.c:291-455 | a source call has at most one meaning, whatever the fuel |
| `Rotation.Gcd` | lib/getopt_long.c:139-153 | Euclid's loop returns a common divisor that is a combination of both numbers |
| `Rotation.GcdIsGreatest` | lib/getopt_long.c:139-153 | such a divisor is the greatest one |
| `Rotation.OrbitClass` | lib/getopt_long.c:174-188 | a cycle stays in its residue class modulo the gcd, so cycles are disjoint |
| `Rotation.OrbitDistinct` | lib/getopt_long.c:174-188 | a cycle visits no place twice within n / gcd steps |
| `Rotation.OrbitCovers` | lib/getopt_long.c:174-188 | a cycle visits every place of its class within n / gcd steps |
| `Rotation.OrbitReturns` | lib/getopt_long.c:174-188 | after n / gcd steps a cycle is back at its start |
| `Rotation.CycleSwaps` | lib/getopt_long.c:178-187 | one swap moves one element of a cycle a step on and brings the next one to the start |
| `Rotation.FollowCycle` | lib/getopt_long.c:174-188 | the inner loop rotates one cycle and touches nothing else |
| `Rotation.PermuteArgs` | lib/getopt_long.c:160-192 | permute_args exchanges argv[a..b] with argv[b..c], both in order, and touches nothing else |
| `Getopt.SplitIsStable` | lib/getopt_long.c:404-482 | the intended result is a stable partition: each part holds the arguments of one role in their original order |
| `Getopt.SplitConserves` | lib/getopt_long.c:404-482 | no argument is lost or duplicated |
| `Getopt.SkippedAreNonOptions` | lib/getopt_long.c:427-459 | only non-options are skipped |
| `Getopt.UnreadFollowsTerminator` | lib/getopt_long.c:465-481 | with permutation, arguments stay unread only behind `--` |
| `Getopt.OptionUses` | lib/getopt_long.c:555-574 | an option uses its own place and those of the arguments it asks for, as far as there are any, and the next argument begins right behind them |
| `Getopt.OptionReports` | lib/getopt_long.c:555-574 | an option argument is reported once for each of its letters, in order, then come the reports for what follows its arguments |
| `Getopt.OptionTakesArguments` | lib/getopt_long.c:404-482 | on the final argv: behind any non-options, an option moves in front of them together with all its arguments, in order |
| `Getopt.FreshOutlook` | lib/getopt_long.c:404-482 | a run from a fresh scan ends with options and their arguments, then skipped non-options, then unread arguments, each in order, and optind at the first that is not an option's |
| `Getopt.SkipKeeps` | lib/getopt_long.c:448-459 | skipping a non-option keeps the final result that is due |
| `Getopt.PermuteKeeps` | lib/getopt_long.c:451-456 | a permutation in mid-run keeps it |
| `Getopt.MeetKeeps` | lib/getopt_long.c:461-462 | meeting an option keeps it |
| `Getopt.LastLetterKeeps` | lib/getopt_long.c:555-574 | consuming an option and its arguments keeps it and reports the last letter |
| `Getopt.TerminatorEnds` | lib/getopt_long.c:467-481 | what is due at `--` is the block exchange, `--` counted as an option |
| `Getopt.EndPermutes` | lib/getopt_long.c:406-420 | what is due at the end of argv is the last block exchange |
| `Getopt.Scanner.Getopt` | lib/getopt_long.c:393-482 | one call, from any state between calls: either reports the next letter due and keeps the final result due, or ends with it; the nonopt_start, nonopt_end, optind invariant holds after it |
| `Getopt.Scanner.Skip` | lib/getopt_long.c:448-459 | the non-option branch, with its permutation: the final result due and the reports due stay the same, and optind moves on by one |
| `Getopt.Scanner.Finish` | lib/getopt_long.c:406-425 | the end-of-argv branch reaches exactly the final result due and resets the scan |
| `Getopt.Scanner.EndOptions` | lib/getopt_long.c:461-481 | the `--` branch reaches exactly the final result due, `--` among the options, and resets the scan |
| `Getopt.Scanner.Letter` | lib/getopt_long.c:555-574 | the option branch: the next letter of a cluster, optind unchanged; at the last letter optind moves by one and the arguments asked for, at most to argv's end |
| `Getopt.Scanner.Run` | lib/getopt_long.c:393-482 | a full run to -1 reports exactly the options in order and leaves argv and optind as the partition says |
| `GapBuffer.NewSeqLength` | src/fth-lib.h:34-36 | the allotted length is the multiple of 128 strictly greater than the one asked for, by at most 128 |
| `GapBuffer.UnshiftSecondGrowthIdle` | src/array.c:946-957 | unshift's second growth branch is never taken |
| `GapBuffer.DeleteReadsWithin` | src/array.c:1222-1235 | the cells delete reads after cutting the buffer are inside it |
| `GapBuffer.RunKeepsRoom` | src/array.c:835-1238 | over every run of the six operations, failures included and with no limit on the length, on an array that never holds more than L elements: buf_length stays within 2 L + 256 and top within L + 128 |
| `GapBuffer.SpaceIsLinear` | src/array.c:483-506 | the same for every run from an array as make_array leaves it: buf_length within 2 L + 256 and top within half of that |
| `GapBuffer.PrependedKeeps` | src/array.c:1107-1117 | insertion in front, one element at a time, keeps the bound and completes |
| `GapBuffer.Array.constructor` | src/array.c:483-506 | make_array's window and contents |
| `GapBuffer.NegativeDelete` | src/array.c:1210-1211 | deletion at -k removes the k-th element from the end, -1 is pop, and beyond the first element it is out of range |
| `GapBuffer.NegativeInsert` | src/array.c:1104-1105 | insertion at -k puts the elements before the k-th element from the end, and beyond the first one it is out of range |
| `GapBuffer.IndexFromFront` | src/array.c:1095-1238 | other indices count from the front; those at or past the end are out of range, but for insertion at 0 |
| `GapBuffer.Array.Push` | src/array.c:835-868 | append, or too long with nothing changed; exact window |
| `GapBuffer.Array.Pop` | src/array.c:870-904 | remove the last element, or #f when empty; exact window |
| `GapBuffer.Array.Unshift` | src/array.c:907-963 | prepend, or too long with nothing changed; exact window |
| `GapBuffer.Array.Shift` | src/array.c:966-1007 | remove the first element, or #f when empty; exact window |
| `GapBuffer.Array.Insert` | src/array.c:1095-1151 | insert at an index, -k before the k-th element from the end; out of range and too long (with what was already prepended) as the code leaves them; exact window |
| `GapBuffer.Array.Delete` | src/array.c:1200-1238 | delete at an index, -k the k-th element from the end, with its errors; the element returned and the rest in order; exact window |
| `GapBuffer.Array.Run` | src/array.c:835-1238 | every run of the six operations, on any array, leaves exactly the window, contents and replies of their specification, errors included |
| `GapBuffer.RefusedMeans` | src/array.c:842-850 | the guard of a reallocation fails exactly when more cells are needed than there are, and at least 8388608 |
| `GapBuffer.FailsExactly` | src/array.c:835-1151 | an operation answers too long if and only if the guard of its reallocation fails on the window it finds; for an insertion in front, on the window of one of its steps |
| `GapBuffer.ExactRunIsPlain` | src/array.c:835-1238 | a run answers and leaves what the same run on a plain sequence does if and only if no operation finds its guard failing, and exactly those that do answer too long |
| `GapBuffer.ShortRunsSucceed` | src/array.c:835-1238 | a run whose length stays within L with 2 L + 256 below the limit never answers too long, and keeps the space bound |
| `Assoc.MapIsLinear` | src/array.c:1823-1854 | what the map holds at an id is what a search from left to right finds |
| `Assoc.PutKeeps` | src/array.c:1909-1946 | insertion before the first greater id keeps strict order and adds one binding |
| `Assoc.SetKeeps` | src/array.c:2015-2035 | set keeps strict order and is map update |
| `Assoc.RemoveKeeps` | src/array.c:2037-2055 | remove keeps strict order and is map removal |
| `Assoc.RunRefines` | src/array.c:2015-2055 | every run of set and remove keeps the table strictly sorted and refines the run on a finite map |
| `Assoc.LookupAfterRun` | src/array.c:1974-2012 | after any run from empty, a search finds exactly what the map holds |
| `Assoc.ChangedIs` | src/array.c:1909-2055 | on an array, a change is refused if and only if it sets a new id while one more cell calls for a buffer that is too long, and then nothing changes; otherwise it is the change of the cells, within the space bound |
| `Assoc.RunOnArray` | src/array.c:2015-2055 | every run on an array, refused changes included, keeps the table sorted and refines the run of the accepted changes on a finite map |
| `Assoc.ShortTables` | src/array.c:1909-2055 | a run whose table stays within L cells, 2 L + 256 below the limit, has no refused change and keeps the space bound |
| `Assoc.AssocIndex` | src/array.c:1823-1854 | bisection on a sorted table equals linear search |
| `Assoc.AssocInsert` | src/array.c:1909-1946 | the cell goes to its slot in the array's buffer, or the table is too long and unchanged; exact window |
| `Assoc.AssocRef` | src/array.c:1990-2012 | lookup on the array is lookup in the map |
| `Assoc.AssocSet` | src/array.c:2015-2035 | set on the array is SetCells and keeps it sorted; it fails if and only if the id is new and the buffer would be too long, and then changes nothing; exact window |
| `Assoc.AssocRemove` | src/array.c:2037-2055 | remove on the array is RemoveCells and keeps it sorted; exact window |
| `Assoc.AssocRun` | src/array.c:2015-2055 | any run of set and remove on the array leaves the window and cells of RunChanged, sorted, and counts the refused changes; with none refused the cells are those of RunCells |
| `IsoWeek.YearStartNext` | lib/strftime.c:608-620 | isleap is the length of the years of the Gregorian calendar |
| `IsoWeek.WeekNumber` | lib/strftime.c:748-771 | the result is the number of Mondays, or Sundays, among the days of the year up to and including the date |
| `IsoWeek.YearDayWeekday` | lib/strftime.c:631-673 | counting weekdays back from the date gives the weekdays of the calendar |
| `IsoWeek.JanuaryFirst` | lib/strftime.c:657-673 | jan1day is the weekday of the first of January |
| `IsoWeek.LateMeans` | lib/strftime.c:718-738 | the December test holds if and only if the week's Thursday lies in the next year |
| `IsoWeek.Early` | lib/strftime.c:698-713 | the date built for the recursion is a valid 31 December in the same week |
| `IsoWeek.Iso8601WkNum` | lib/strftime.c:631-741 | for every valid date of any year the week number is in 1..53 and, with the %G year, names the week of that Thursday; the recursion is one level deep (its measure falls from 1 to 0) |
| `IsoWeek.WeekDate` | lib/strftime.c:564-587 | %G and %V name the ISO week |
| `IsoWeek.OneWeekDate` | lib/strftime.c:564-587 | a day has one year and week |
| `IsoWeek.WeekDateDetermines` | lib/strftime.c:564-587 | year, week and weekday determine the date |
| `IsoWeek.KnownDates` | lib/strftime.c:564-587 | the calendar is the one in use: four dates with their weekdays and ISO weeks, 1 January 1970 among them |
| `Wordlist.HashCode` | ficl/hash.c:104-128 | the rolling 16-bit loop computes the hash function |
| `Wordlist.MatchesHashAlike` | ficl/hash.c:104-128 | names that match hash alike |
| `Wordlist.Strincmp` | ficl/utility.c:316-330 | no difference is found if and only if the names agree up to case, or up to a NUL |
| `Wordlist.MatchIsCaseInsensitive` | ficl/hash.c:164-186 | for names without NUL a match is equality after case folding |
| `Wordlist.MatchesMeans` | ficl/utility.c:316-330 | byte by byte: a name matches if and only if the lengths agree and at each of the first 256 places the bytes are equal or the two cases of one ASCII letter |
| `Wordlist.HashFits` | ficl/hash.c:104-128 | the hash code of a name has twelve bits |
| `Wordlist.HashOfDup` | ficl/hash.c:104-128 | dup and DUP have the hash code 2896 |
| `Wordlist.ScanFilters` | ficl/hash.c:164-186 | searching the bucket of the name's hash finds what a scan of the whole list finds |
| `Wordlist.NewWord` | ficl/dictionary.c:864-881 | linking a word into its bucket puts it in front of the list and keeps every chain |
| `Wordlist.UnlinkedChain` | ficl/hash.c:77-94 | popping chain heads removes exactly the words at or above the cut |
| `Wordlist.ForgetHolds` | ficl/hash.c:77-94 | after the cut the table holds exactly the list filtered by address, in memory freed from there on |
| `Dictionary.ScanIsFirst` | ficl/dictionary.c:652-668 | a scan finds the first match: newer definitions shadow older ones, nothing is found only if nothing matches |
| `Dictionary.BegunKeeps` | ficl/dictionary.c:386-431 | a begun definition is laid out above everything, open and in no list, and every list still holds its words |
| `Dictionary.CompletedKeeps` | ficl/dictionary.c:853-883 | completing an open definition keeps every list: each chain holds exactly its completed words, newest first, in the bucket of their hash |
| `Dictionary.Dictionary.constructor` | ficl/hash.c:192-203 | a new dictionary is valid, with empty wordlists |
| `Dictionary.Dictionary.Begin` | ficl/dictionary.c:386-431 | the dictionary becomes that of Begun, with the word returned open |
| `Dictionary.Dictionary.Finish` | ficl/dictionary.c:853-883 | the open word is completed and put in front of the compilation wordlist, unless it has no name, and no other list changes |
| `Dictionary.Dictionary.Define` | ficl/dictionary.c:386-431 | a word complete at once leaves what a begun and finished one leaves |
| `Dictionary.Dictionary.HashLookup` | ficl/hash.c:155-186 | hashed lookup in a list and its ancestors equals a newest-first scan of their completed words |
| `Dictionary.Dictionary.Lookup` | ficl/dictionary.c:652-668 | lookup equals the scan list by list in search order; what is found is complete, never smudged |
| `Dictionary.Dictionary.HashForget` | ficl/hash.c:77-94 | every bucket's chain is cut, no other list changes |
| `Dictionary.Dictionary.Forget` | ficl/tools.c:722-739 | FORGET filters the compilation wordlist by address and frees memory from the name on; the dictionary stays valid if and only if no other list has a word there; an unknown name changes nothing |
| `Dictionary.CutSurvives` | ficl/hash.c:77-94 | a list survives the freeing of memory if and only if all its words lie below the cut |
| `Dictionary.OtherListBroken` | ficl/tools.c:722-739 | a failing input: forgetting a word while another list holds a newer one |
| `Dictionary.SessionSince` | ficl/dictionary.c:386-431 | what a part of a session of definitions, finished or aborted, has left is unchanged below its end by all later ones, and only the compilation wordlist grows |
| `Dictionary.SearchAfter` | ficl/dictionary.c:652-668 | after any session, a search finds the last finished definition whose name matches, if it comes to the compilation wordlist before another list answers, and otherwise what it found before the session |
| `Dictionary.VariantFound` | ficl/dictionary.c:652-668 | after a definition, with the compilation wordlist searched first, the new word is found under its name in any capitals, and under any other name what was found before |
| `Dictionary.Dictionary.DefineAndLookup` | ficl/dictionary.c:652-668 | the same on the dictionary: a definition and a lookup, byte by byte |
| `Dictionary.Dictionary.DefineAll` | ficl/dictionary.c:386-431 | a session of definitions, finished or aborted and with code in between, leaves the dictionary of RunSession |
| `Dictionary.ForgottenBack` | ficl/tools.c:722-739 | a valid dictionary left by cutting at the end of an earlier one is that earlier one, tables included |
| `Dictionary.Dictionary.DefineAndForget` | ficl/tools.c:722-739 | a session and then FORGET of any name: if a finished definition matches and the compilation wordlist is reached first, memory, words, lists and tables are exactly as they were before the last matching definition; otherwise FORGET cuts at the older word, or finds nothing |
| `Numerals.BackwardReversed` | ficl/utility.c:108-125 | the digits produced backward and reversed are the numeral |
| `Numerals.BackwardLength` | ficl/utility.c:213-291 | a cell has at most 64 digits, so the buffer suffices |
| `Numerals.MaskIs` | ficl/utility.c:232-233 | the complement of -1 shifted left by n, on 64 bits, is 2^n - 1 |
| `Numerals.AndIsMod` | ficl/utility.c:235-239 | masking is the remainder by a power of two |
| `Numerals.ShiftIsDiv` | ficl/utility.c:235-239 | shifting is the quotient |
| `Numerals.IsPowerOfTwo` | ficl/utility.c:197-207 | the exponent if and only if there is one, for every unsigned cell |
| `Numerals.StringReverse` | ficl/utility.c:108-125 | in-place reversal of the characters before the NUL; the rest is untouched |
| `Numerals.Shift` | ficl/utility.c:230-240 | the power-of-two loop writes the division loop's digits |
| `Numerals.Divide` | ficl/utility.c:241-252 | the division loop writes the digits of the number, least significant first, at most 64 of them |
| `Numerals.Ltoa` | ficl/utility.c:213-259 | ficlLtoa leaves the numeral: signed in base ten, the unsigned cell elsewhere, for every cell and base 2..36 |
| `Numerals.Ultoa` | ficl/utility.c:265-291 | ficlUltoa leaves the numeral of every unsigned cell |
| `Numerals.Pictured` | ficl/primitives.c:1534-1624 | <# #S #> leaves the same numeral |
| `Numerals.ToNumber` | ficl/primitives.c:1681-1727 | >NUMBER stops at the first character that is no digit of the base |
| `Numerals.DigitMeans` | ficl/primitives.c:1708-1722 | what each character stands for: both cases of a letter are the same digit; >NUMBER also lets the six characters between the cases through |
| `Numerals.CapitalsAreRead` | ficl/primitives.c:1681-1727 | a numeral with any of its letters replaced by capitals is read by >NUMBER as its cell |
| `Numerals.ReadingStops` | ficl/primitives.c:1681-1727 | >NUMBER reads a numeral up to the first character that is no digit of the base, and leaves the rest |
| `Numerals.NumeralReads` | ficl/primitives.c:1708-1722 | a numeral consists of digits of its base and its value is the number |
| `Numerals.PrintedIsRead` | ficl/primitives.c:1681-1727 | printing an unsigned cell and reading it with >NUMBER is the identity |
| `Numerals.ParseNumber` | ficl/vm.c:2768-2841 | ficlVmParseNumber as specified, with sign, double mark and wrap-around, and one failure on a range error left in errno, which is cleared |
| `Numerals.NumeralIsParsed` | ficl/vm.c:2768-2841 | a numeral in any mixture of capitals, behind + or - or no sign, in every base, is parsed as its cell, unless its last character is a small d; then it is no number or the double of the quotient |
| `Numerals.NumbersAre` | ficl/vm.c:2768-2841 | exactly which texts without NUL are numbers: behind a sign and before a small d there is at least one character, and all are digits of the base |
| `Numerals.PrintedIsParsed` | ficl/vm.c:2768-2841 | parsing what ficlLtoa printed gives the cell back if and only if not (base >= 14 and the last digit is d); otherwise no number, or the double of the quotient |
| `Numerals.HexadecimalD` | ficl/vm.c:2804-2812 | a concrete failure: in base 16, 13 is printed as d and is not read as a number, nor 29 as itself; the capitals D and 1D are read |

## Left out

- Cells are typed: a code cell is an instruction or a number, and a stack cell of the compiler an address, a count or a tag; the original stores raw words. The control stack of `Emitter` therefore cannot be forged by ordinary data left on the data stack between compiling words.
- Arithmetic of loop indices and branch offsets is unbounded; 64-bit overflow of a DO index is not modelled. `Numerals` does model 64-bit wrap-around.
- VirtualMachine.Vm.LinkFrame: gives all cells of a new frame one arbitrary value, where the original leaves what the stack held; a finished list of locals stores each before it can be read, and the source's meaning, which compiled programs have for every such value, does not mention it.
- Primitives are an arbitrary function on the data stack that may throw; those that touch memory, files or the interpreter itself, `does>`, EXECUTE, CATCH and THROW, and what happens after a throw are not part of this model.
- Where exactly the original checks its stacks for overflow: the machine object reports a full stack wherever it meets one. Dictionary overflow is not part of this model.
- String literals and word-location records, which put inline data between instructions.
- Compiler.Definition.WhileWord: requires a dest on top of the control stack; over anything else the two rolls of WHILE mix the cells of two items.
- Compiler.Definition.PopMarked: matchControlTag also accepts a null or empty tag; here every item has one of the eight tags.
- Compiler.Definition.LocalWords: TO looks for a global value when the name is no local; here a local that is not declared is a failure.
- Compiler.Definition.Run: as for WhileWord, a dest is on top wherever WHILE is met; after `;` further words are interpreted by the original and fail here.
- Correctness.CompiledProgramsRunAsMeant: speaks of calls that are meaningful in the source, that is, that never take from the return stack what their definition did not put there, nor return with something left on it when there are no locals.
- CountedLoops.DoLoopIterates, CountedLoops.PlusLoopEndsIff: are about bodies that end normally from every state of an invariant and keep the return stack; loops left early are covered by Simulation.SimIterations. CountedLoops.DoLoopRunsMaxTimes and CountedLoops.PlusLoopStops take the effect of each iteration as given; the statements about balanced bodies do without.
- Getopt: how a letter or long name is matched, messages and optarg; an argument is an option, `--` or a non-option, has a number of letters, and asks for any number of further arguments. argv holds at least the program's name. A `-` as the last letter of a cluster, which ends a run without permuting, is not modelled.
- GapBuffer.Array.Insert: the inserted elements are a value, so inserting an array into itself is not covered.
- GapBuffer.Array.constructor: takes a length that make_array accepts; Make says which ones those are.
- Assoc: keys are distinguished by their hash id only, as in the original, and fth_hash_id is a parameter; a nil or #f table is not modelled. Other array and list operations (sort, uniq, reject, subarray, list-delete!, acons) are left out.
- Wordlists that have become invalid by FORGET, and what the original's chains into freed memory then lead to.
- Dictionary.Dictionary.Finish: requires that the open definition is the newest word; finishing a word twice would link it to itself. The reclaiming of memory when a definition is aborted is not modelled; an aborted word stays smudged and in no list.
- Dictionary.Dictionary.Begin: names have at most FICL_NAME_LENGTH bytes, because the original writes past the copy of a longer one. Parent wordlists are created before their children.
- Numerals.ToNumber: includes the original's reading of characters between `Z` and `a` as digits; the round trips are about digit strings.
- Numerals.ParseNumber: returns the number instead of pushing it, and does not compile it as a literal.
- The comment on ficlVmParseNumber speaks of a trailing decimal point as the double mark; its code tests for the letter d, and the model follows the code.
- IsoWeek: other strftime conversions.
- Ratios, bignums, floats, objects, input and output, the REPL, and the platform files.
