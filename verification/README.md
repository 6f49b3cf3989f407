# Aseba compiler and virtual machine, verified

Aseba runs event-based scripts (AESL) on small robots. A script is compiled to a stack
bytecode of 16-bit words, which the virtual machine of the robot executes. This project
models the compiler from the expansion of vector operations to the linked bytecode, and the
virtual machine that runs it, and proves that they agree. It also models three smaller parts
of the repository that work in place: the deque and the sort among the native functions, the
edit distance behind the compiler's suggestions, and the page layout of firmware upgrades.

How the parts fit together:

- `Words`, `Operators`, `OperatorLaws`, `Tree`, `Semantics`: 16-bit words, the operators
  as C expressions over wide integers, laws that determine them, the syntax tree, and its meaning. The meaning is a big-step evaluator
  with fuel: each loop iteration and each call spends one unit. Its `checked` form refuses
  the divisions that the optimiser turns into wrong shifts, and is otherwise the same.
- `Vectors`, `VectorAssign`, `ForLoops`: source constructs that become scalar statements.
- `Types`, `Optimizer`, `Folding`, `OptimizerExpr`, `OptimizerStmt`, `Refusals`, `Settled`,
  `Kept`, `InPlace`: the type check, the optimiser as a function, which constants it may fold,
  its correctness, what it refuses, what it leaves, which `when` statements it keeps, and
  expression nodes rewritten in place on the heap.
- `Code`, `Parts`, `Heights`, `Peaks`, `Depths`, `NativeCalls`, `Segments`, `Bytecode`,
  `Emitter`, `Programs`, `Units`: the words of a tree, the height of the stack at each of its instruction
  boundaries, the walk over instructions, and the methods that append to bytecode vectors.
- `Analysis`, `Linker`, `Compiler`, `Layout`, `Naming`, `Pipeline`, `Source`, `Front`: the
  stack check, fixup, linking, and the theorems about whole programs.
- `Machine`, `ExprCorrect`, `StmtCorrect`, `OpenEnds`, `StackSteps`, `StmtSteps`, `Runs`: one
  step of the machine on values, code generation against it, and what every step keeps. A
  subroutine that can run past its last word is given a fence there: the semantics with
  fences tells which runs come to such an open end.
- `Boundaries`, `Flow`, `Reach`, `Live`: instruction boundaries, and the flow of control over
  the words, both outcomes of a branch included.
- `Vm`, `VmRuns`, `WhenFlags`: the machine on arrays, with the memory
  of `when` statements in the bytecode itself, refines the machine on values, through whole
  runs of compiled programs.

A `when` statement runs its block only when its condition becomes true; it remembers the last
outcome in bit 9 of its own branch word. In the tree, that memory has a name (`site`), which
stands for no source text: any names do, as long as no two `when` statements share one. The
linked program names each surviving `when` by the address of its branch.

Where the code does not do what its comments, its documentation or its structure suggest, the
model follows the code, a concrete input shows that it is wrong, and the exact condition under
which it is right is proved:

- a subroutine that ends in `return` gets no SUB_RET even if a branch jumps past that return;
- a write through a computed index can need one stack slot more than is computed for it, and
  arguments of native calls are pushed in the opposite order to the one assumed;
- division by a power of two becomes an arithmetic shift, also for negative dividends;
- constants are folded in wide integers and truncated only when they are emitted;
- a `when` on a constant condition loses its memory;
- array indexes are not type-checked, and an ill-typed one can make the optimiser abort;
- steps other than 1 and -1 pass the guards of `for` although the index can wrap around;
- insertion into the left half of a deque shifts too few elements for most positions of its
  start, and insertion beyond the last element is not refused;
- fusing a firmware record at the head of a chunk keeps the chunk's old address;
- resetting the marks of `when` statements starts its walk too late, and possibly in the
  middle of an instruction.

The layout comments in `aseba/compiler/tree-emit.cpp` at lines 137-148 and 224-234 describe
branches with two offsets; the code emits one, and the model has one.

`dafny verify dfyconfig.toml` checks the whole project.

## Model

| member | source | states |
|---|---|---|
| `VmRuns.HandleEvent` | aseba/vm/vm.c:67-84 | An event of a program that the stack check accepted, on the arrays of the machine: found in the event table, run under a step limit or without one, never past the end of the stack array. The machine is interrupted exactly if the handler is still running after as many steps as the limit; otherwise variables, messages and `when` marks are those of the tree semantics of the handler, or the fault is its fault. A handler that was running before, and one that is interrupted, are reported with their program counters. The run may not come to the open end of a subroutine |
| `VmRuns.BareRun` | aseba/vm/vm.c:522-549 | The loop over AsebaVMStep takes the arrays through exactly the states of the abstract run, until the handler has halted or the step limit is reached, which interrupts a handler that is still active and is reported even if its last step was its end; a stack array of the accepted size (one slot more if a write misses one) always suffices, as long as the run does not come to an open end |
| `VmRuns.GetEventAddress` | aseba/vm/vm.c:55-64 | The search of the event table finds the start of the handler of every implemented event in the linked bytecode, whatever marks earlier runs left in it, and 0 for all other events |
| `VmRuns.SetupEvent` | aseba/vm/vm.c:67-84 | Starting a handler puts the machine in its initial state with an empty stack, keeps variables, emitted messages and marks, reports a handler that was still running with its program counter, and does nothing for an event that is not implemented |
| `Front.CompileSource` | aseba/compiler/compiler.cpp:188-239 | The compiler from the checked source on, whatever constants it folds: refused by the optimiser, exactly for one of its expressions, targets or loop conditions, by the stack check exactly if some chain of calls overflows, by the linker exactly if the words do not fit; otherwise the linked words of a program whose every handler and subroutine is the optimised one of the source |
| `Front.SourceUnits` | aseba/compiler/compiler.cpp:188-239 | A checked source declares no event twice, and is refused by the optimiser exactly for one of its expressions, targets or loop conditions |
| `Front.CompiledRuns` | aseba/compiler/compiler.cpp:188-239 | For every script whose `when` statements have names of their own and whose constants may be folded: every handler of the compiled program is that of a source event, and if the source handler ends, without a fault and without a division that becomes a wrong shift, its bytecode stops with the same variables, messages and `when` memory, each surviving `when` remembering in its branch, or it comes to the open end of a subroutine, which it never does if all subroutines that the handler may call are closed |
| `Front.OptimizeItems` | aseba/compiler/tree-optimize.cpp:32-53 | The loop over the children of the program node keeps declarations and erases what becomes empty |
| `Front.CheckedDeclared` | aseba/compiler/tree-emit.cpp:278-308 | Type-checked declarations and statements, once optimised, are what the emitter asks for |
| `Source.SourceRuns` | aseba/compiler/compiler.cpp:203-239 | The same for any program that holds the optimised form of every unit |
| `Naming.RenamedExec` | aseba/vm/vm.c:379-420 | Giving the `when` statements other names, one to one, changes nothing but the names of their memory in what a program does |
| `Naming.ProgramBijective` | aseba/vm/vm.c:379-420 | If no name is given twice, the surviving names and the addresses of the `when` branches of the linked program correspond one to one |
| `Kept.StmtKeptBy` | aseba/compiler/tree-optimize.cpp:63-107 | If no name is given twice, the names that are left after optimisation are those of the `when` statements that survive it |
| `Kept.OptSites` | aseba/compiler/tree-optimize.cpp:63-107 | The optimiser invents no `when` and duplicates none |
| `Pipeline.Compile` | aseba/compiler/compiler.cpp:222-239 | The back end accepts a program exactly when every chain of calls fits the stack and the linked words fit the target; the error tells which failed, the stack first; accepted words are the linked layout of the program |
| `Pipeline.ProgramSafe` | aseba/compiler/analysis.cpp:30-97 | Whole runs: at every step of every run of every event of an accepted program, nested calls included, until the run comes to the open end of a subroutine, the machine is on a live instruction boundary with the stack its frames account for, has stopped, or died of a data fault; the stack never outgrows the accepted size (plus one slot only if some unit takes more than the depth computed for it); a halted run has the result of the tree semantics |
| `Pipeline.ProgramEnds` | aseba/compiler/tree-emit.cpp:91-316 | Every handler that ends in the tree semantics ends in the machine with the same result, and the machine runs on as long as the semantics does; it comes to an open end where the semantics meets a fence behind a subroutine that is not closed, and only there does the tree not tell |
| `Pipeline.SealedNoOpenEnd` | aseba/compiler/tree-emit.cpp:69-80 | If all subroutines that a handler may come to call are closed, no run of it comes to an open end, at any step, and the fences make no difference; the others may be open |
| `Pipeline.TrailingReturnFallsThrough` | aseba/compiler/tree-emit.cpp:69-80 | A subroutine made of `if a == b then return end` gets no SUB_RET after its last one; when the condition is false the statement ends normally but the machine runs past its last word and dies |
| `Reach.OpenEndIsLive` | aseba/compiler/tree-emit.cpp:69-80 | Control can leave a subroutine at the end of its words exactly when its last instruction is already a return, so that none is appended, and some sequence of branch outcomes leads from its first word to its end: that is when the subroutine is not closed |
| `Reach.EndReached` | aseba/compiler/tree-emit.cpp:134-269 | Over the words of a statement, with both outcomes of every branch, the end is reached from the start exactly when the tree has a completing path |
| `StmtCorrect.BodyRuns` | aseba/vm/vm.c:448-476 | The body of a subroutine, closed or not, run with a return address on the stack: it goes back to that address exactly when the tree semantics returns, and runs on past its last word, the address still on the stack, exactly when it completes normally; the image may hold any number of subroutines that are not closed |
| `OpenEnds.OpenBodyRuns` | aseba/compiler/tree-emit.cpp:69-80 | Called where its body completes normally, a subroutine that is not closed comes to its open end, with the variables and messages that the semantics says, instead of returning |
| `OpenEnds.FencedAgrees` | aseba/compiler/tree-emit.cpp:69-80 | Unless execution comes to the end of a subroutine that is not closed, the fences there make no difference; and it cannot where only closed subroutines can be called |
| `Runs.OpenEndExact` | aseba/vm/vm.c:448-476 | A machine that keeps the stack invariant is at an open end, judged by its program counter and the top of its stack, exactly when the unit that it runs is not closed and is over |
| `Pipeline.ClosedGraph` | aseba/compiler/analysis.cpp:30-97 | What the stack check reads from the closed vectors is the depths and calls of the tree |
| `ExprCorrect.ImmRuns` | aseba/compiler/tree-emit.cpp:32-44 | Small and large immediates both push the low 16 bits of the folded constant |
| `ExprCorrect.ExprRuns` | aseba/compiler/tree-emit.cpp:317-386 | Running the code of an expression from any memory adds exactly its 16-bit value to the stack, or dies with its fault, memory unchanged |
| `ExprCorrect.TargetRuns` | aseba/compiler/tree-emit.cpp:355-372 | The code of a target pops the value and stores it where the tree semantics does, or dies with its fault |
| `StmtCorrect.StmtRuns` | aseba/compiler/tree-emit.cpp:91-316 | Running the code of any statement from any memory does what the tree semantics says: reaches its end with that memory and the stack as it was, or a return word, or the fault, or runs on; where the semantics completes a subroutine that is not closed, the machine is at its open end |
| `StmtCorrect.BlockRuns` | aseba/compiler/tree-emit.cpp:91-94 | The same for blocks |
| `StmtCorrect.IfRuns` | aseba/compiler/tree-emit.cpp:134-205 | The same for folded conditionals, edge-sensitive ones included |
| `StmtCorrect.WhileRuns` | aseba/compiler/tree-emit.cpp:221-269 | The same for folded loops, with the backward jump in 12 bits |
| `StmtCorrect.EmitRuns` | aseba/compiler/tree-emit.cpp:288-298 | The same for emit: the message carries the variables at that moment |
| `StmtCorrect.CallRuns` | aseba/vm/vm.c:448-476 | A subroutine call returns behind itself with the effect of the body |
| `StmtCorrect.SubRuns` | aseba/vm/vm.c:448-476 | From the first word of a subroutine back to the return address on the stack, or to its open end |
| `StmtCorrect.NormalMayComplete` | aseba/compiler/tree-emit.cpp:69-80 | A body that completes normally has a path to its end, so that only an unclosed one can run past its words |
| `Runs.EventRuns` | aseba/compiler/tree-emit.cpp:69-80 | A handler closed with STOP stops with the state of the tree semantics, unless that meets an open end |
| `Runs.HaltedRunEnds` | aseba/vm/vm.c:155-481 | Conversely a run that halts, and never came to an open end, is the run of a handler that ends with this result |
| `Runs.RunSafe` | aseba/compiler/analysis.cpp:30-97 | At every step until an open end the stack is the return addresses of the chain of calls, each behind a call of the next unit, and the operands of the running unit, within every bound that the chains fit |
| `Runs.StepSafe` | aseba/vm/vm.c:155-481 | One machine step that is not at an open end keeps that invariant |
| `Runs.AcceptedFits` | aseba/compiler/analysis.cpp:30-97 | If the graph read from the program is safe, every call chain of every handler fits the stack |
| `Code.WordIsOr` | aseba/compiler/tree-emit.cpp:345-348 | Opcode and argument joined by or are their sum for arguments of 12 bits |
| `Emitter.PreLinkBytecode.constructor` | aseba/compiler/tree-emit.cpp:47-50 | The init event starts with an empty vector, which is the current one |
| `Emitter.PreLinkBytecode.AddImmediate` | aseba/compiler/tree-emit.cpp:32-44 | Appends one word for magnitudes below 2048, two otherwise |
| `Emitter.PreLinkBytecode.EmitExpr` | aseba/compiler/tree-emit.cpp:317-386 | Appends the code of the expression to the current vector |
| `Emitter.PreLinkBytecode.EmitStmt` | aseba/compiler/tree-emit.cpp:91-316 | Appends the code of the statement, and leaves the current vector in place |
| `Emitter.PreLinkBytecode.EmitBlock` | aseba/compiler/tree-emit.cpp:91-94 | Appends the code of the children one after the other |
| `Emitter.PreLinkBytecode.EmitIf` | aseba/compiler/tree-emit.cpp:134-205 | Collects the parts in vectors of their own, by swapping the current one, and joins them with the right skip and jump |
| `Emitter.PreLinkBytecode.EmitWhile` | aseba/compiler/tree-emit.cpp:221-269 | The same for loops |
| `Programs.EmitProgram` | aseba/compiler/tree-emit.cpp:96-117 | Every event handler and subroutine gets a vector of its own with the code of its statements and the depth of the deepest of them, handlers in ascending order of event id |
| `Units.ProgramUnits` | aseba/compiler/tree-emit.cpp:91-99 | A program has the handler of the initialisation, which are the statements before the first declaration, and one unit for each declaration, which are the statements between it and the next, in their order; no others, and the events ascend |
| `Units.HandlerIs` | aseba/compiler/tree-emit.cpp:278-286 | The statements between the declaration of an event and the next declaration are its handler, and its only one |
| `Units.SubroutineIs` | aseba/compiler/tree-emit.cpp:300-308 | The same for subroutines, which are numbered in turn |
| `Units.InitIs` | aseba/compiler/tree-emit.cpp:91-99 | The same for the statements before the first declaration |
| `Programs.EmitStatement` | aseba/compiler/tree-emit.cpp:91-117 | A statement goes to the unit declared last |
| `Programs.DeclareEvent` | aseba/compiler/tree-emit.cpp:278-286 | A handler gets an empty vector at its place in the order of event ids |
| `Programs.DeclareSub` | aseba/compiler/tree-emit.cpp:300-308 | A subroutine gets the next vector |
| `Peaks.ExprPeak` | aseba/compiler/tree-emit.cpp:324-353 | Inside the code of an expression the stack never rises above getStackDepth |
| `Depths.ExprDepthExact` | aseba/compiler/tree-emit.cpp:324-353 | getStackDepth of an expression is the number of instructions in its code that push |
| `Depths.StmtDepthExact` | aseba/compiler/tree-emit.cpp:83-88 | getStackDepth of a statement fits so many slots exactly if the code of each of its expressions, target indexes and compared pairs pushes at most so often |
| `Depths.CallDepthExact` | aseba/compiler/tree-emit.cpp:443-449 | getStackDepth of a native call, argument by argument |
| `Depths.ArgDepthExact` | aseba/compiler/tree-emit.cpp:389-423 | getStackDepth of each kind of argument |
| `Peaks.StmtPeak` | aseba/compiler/tree-emit.cpp:83-88 | For any number of slots: the stack inside the code of a statement stays within them exactly when the peak does that follows the order of evaluation, code after a return left out |
| `Peaks.WritePeak` | aseba/compiler/tree-emit.cpp:120-126 | A write through a computed index stays within getStackDepth exactly when the index, evaluated above the value, takes no more than the computed depth |
| `Peaks.TopDepth` | aseba/compiler/tree-emit.cpp:83-88 | getStackDepth falls short of the peak by at most one slot, and only if the statement writes through a computed index |
| `Runs.StackExact` | aseba/compiler/analysis.cpp:30-97 | The machines that keep the stack invariant fit a stack exactly when every chain of calls does, each with the peak of its last unit |
| `Peaks.IndirectWriteNeedsOneMore` | aseba/compiler/tree-emit.cpp:361-372 | For v[i] = x the computed depth is 1 but two slots are used |
| `Heights.StmtEnds` | aseba/compiler/tree-emit.cpp:91-269 | The code of a statement starts with nothing on the stack, and ends so exactly when some path completes |
| `StackSteps.ExprStep` | aseba/vm/vm.c:165-363 | Each step inside an expression moves to the next boundary with its static height, or dies of a data fault |
| `StmtSteps.StmtStep` | aseba/vm/vm.c:155-481 | Each step inside a statement lands on a live boundary of it with its static height, calls one of its subroutines, leaves it, or dies of a data fault |
| `NativeCalls.PushPeak` | aseba/compiler/tree-emit.cpp:443-449 | The depth formula of a native call bounds the stack if its arguments (addresses, computed elements and tuples) were pushed in the order of the list |
| `NativeCalls.ArgsPeak` | aseba/compiler/tree-emit.cpp:426-449 | In the order in which they are pushed, the arguments stay within the computed depth exactly when each one, evaluated above all later ones, does; the depth is too small by less than their number |
| `NativeCalls.CallPeak` | aseba/compiler/tree-emit.cpp:426-449 | The same for a whole call with its template arguments; without other arguments the depth is always too small |
| `NativeCalls.NativeDepthTooSmall` | aseba/compiler/tree-emit.cpp:426-449 | For f(v[i], x) the code needs 3 slots and the compiler computes 2 |
| `NativeCalls.ArgStep` | aseba/compiler/tree-emit.cpp:389-423 | The heights are those of the machine: a step inside the code of an argument goes to its next boundary at the height stated for it, or dies of a data fault |
| `NativeCalls.ElementRuns` | aseba/compiler/tree-emit.cpp:389-423 | The code of a computed element pushes its address and leaves the element in the temporary, or dies because the index is out of range |
| `NativeCalls.ArgsRun` | aseba/compiler/tree-emit.cpp:426-441 | After the argument code the stack holds the addresses of all arguments, the first on top, and the values of tuples are stored; or the machine has died of the fault of preparing one |
| `Analysis.VerifyStackCalls` | aseba/compiler/analysis.cpp:30-97 | Terminates, and returns true exactly when every event and every chain of calls, from an event or from an uncalled subroutine, needs at most the stack size |
| `Depths.StackSafeExactly` | aseba/compiler/analysis.cpp:30-97 | What the check accepts, said of the program: the computations of each handler fit the stack, and those of each subroutine fit above the return addresses of every chain of calls to it |
| `Analysis.MarkEvent` | aseba/compiler/analysis.cpp:36-56 | Exactly the subroutines that the walk over an event meets get call depth 1 |
| `Analysis.Propagate` | aseba/compiler/analysis.cpp:68-91 | Every callee is raised to at least one above its caller, and activity is reported exactly when a depth changed |
| `Analysis.Pass` | aseba/compiler/analysis.cpp:62-93 | One pass refuses only unsafe graphs, keeps each depth reached by a chain, and strictly decreases the slack or settles every subroutine |
| `Analysis.SettledSafe` | aseba/compiler/analysis.cpp:59-94 | A fixpoint bounds every chain of calls |
| `Analysis.ViolatedUnsafe` | aseba/compiler/analysis.cpp:63-66 | A refusal names a chain that really overflows |
| `Analysis.RecursionUnsafe` | aseba/compiler/analysis.cpp:59-94 | No program with a cycle of calls is accepted, even one that nothing calls |
| `Bytecode.BytecodeVector.ChangeStopToRetSub` | aseba/compiler/compiler.cpp:294-302 | Rewrites the first word of every instruction that is a STOP, and nothing else |
| `Bytecode.BytecodeVector.GetTypeOfLast` | aseba/compiler/compiler.cpp:305-313 | Returns the opcode of the last instruction of the walk |
| `Walks.StmtWalked` | aseba/compiler/compiler.cpp:41-58 | The walk over the code of a statement meets exactly the calls of the tree, and rewriting it gives the code with returns or resolved addresses in place |
| `Walks.RewrittenConcat` | aseba/compiler/compiler.cpp:294-302 | Rewriting passes whole units independently |
| `Compiler.Prune` | aseba/compiler/tree-emit.cpp:55-64 | Drops exactly the handlers without code, by erasing while iterating |
| `Compiler.NonEmptyExactly` | aseba/compiler/compiler.cpp:222-239 | Exactly the handlers with code are left |
| `Source.MissingHandler` | aseba/compiler/compiler.cpp:222-239 | A handler of the source that is not in the event table changes no variable and sends nothing wherever it ends |
| `Compiler.Fixup` | aseba/compiler/tree-emit.cpp:54-80 | After fixup every handler ends in STOP, and every subroutine returns instead of stopping and ends in SUB_RET |
| `Compiler.CloseSubVector` | aseba/compiler/tree-emit.cpp:69-79 | Closes one subroutine in place |
| `Compiler.LinkHeader` | aseba/compiler/compiler.cpp:254-264 | The table holds each event id with the address where its code will stand |
| `Compiler.Resolve` | aseba/compiler/compiler.cpp:276-288 | The walk over the flattened program rewrites exactly the subroutine calls |
| `Compiler.Link` | aseba/compiler/compiler.cpp:251-291 | Accepts exactly the programs that fit the target; up to 4096 words the result is the linked layout |
| `Linker.LinkExact` | aseba/compiler/compiler.cpp:251-291 | Up to 4096 words the relocation walk passes over table and units in step: the linked program is the table followed by every unit with its own calls resolved |
| `Linker.UnitAt` | aseba/compiler/compiler.cpp:266-276 | Every unit stands at its recorded start |
| `Layout.EventStands` | aseba/compiler/compiler.cpp:251-291 | The closed code of each handler, with resolved calls, stands at the address in the event table |
| `Layout.SubStandsAt` | aseba/compiler/compiler.cpp:272-287 | The closed code of each subroutine stands at the address that calls of it hold |
| `Layout.ProgramPrepared` | aseba/compiler/compiler.cpp:251-291 | The linked program is an image on which the run theorems hold, for each of its events, its units one after the other |
| `Layout.SmallProgramLinkable` | aseba/compiler/compiler.cpp:289-291 | For a target of at most 2048 words no unit is too long for its jumps |
| `Layout.NamePlaced` | aseba/vm/vm.c:379-420 | Each `when` has a branch word of its own, the only branches with the `when` bit |
| `Boundaries.StmtBoundary` | aseba/compiler/tree-emit.cpp:91-316 | Every live boundary of a statement is an instruction boundary of its code |
| `Boundaries.OperandsAreNot` | aseba/compiler/compiler.cpp:41-58 | Operand words are never instruction boundaries |
| `Live.LiveBoundary` | aseba/compiler/tree-emit.cpp:134-269 | Wherever a run of an accepted program is, after any branch, jump, call or return, its program counter is on an instruction boundary of the linked program, and before its end unless it is at an open end |
| `Live.ProgramTargets` | aseba/compiler/tree-emit.cpp:134-269 | In the linked words, in live code or dead, every jump and both outcomes of every branch go to an instruction boundary of their own unit, before its end unless it is a subroutine that ends in a return and got no SUB_RET |
| `Flow.StmtContained` | aseba/compiler/tree-emit.cpp:134-269 | The same over the code of one statement |
| `Vm.VirtualMachine.Step` | aseba/vm/vm.c:155-481 | One AsebaVMStep on the arrays is one step of the abstract machine, the mark in the branch word included |
| `Vm.VirtualMachine.StepBranch` | aseba/vm/vm.c:379-420 | A conditional branch decides from the mark in its own word, and writes the new outcome there and nowhere else |
| `Vm.VirtualMachine.Mark` | aseba/vm/vm.c:379-420 | Setting or clearing bit 9 of a branch word changes one mark and no other word of the program |
| `WhenFlags.ResetWhenFlags` | aseba/vm/vm.c:650-684 | The in-place walk, with its start at twice the first word plus one |
| `WhenFlags.ResetExact` | aseba/vm/vm.c:650-684 | Wherever the walk starts, it clears all marks, whichever are set, and changes nothing else exactly when it meets every branch and takes no operand that reads as a marked branch for one |
| `WhenFlags.ResetAligned` | aseba/vm/vm.c:650-684 | If it starts at an instruction, that is when no branch stands before its start |
| `WhenFlags.ResetClears` | aseba/vm/vm.c:650-684 | From an instruction on the walk clears every mark and changes nothing else |
| `WhenFlags.ResetCorrupts` | aseba/vm/vm.c:650-684 | In the linked words of a script that adds -23809 the walk starts at the operand of the immediate and makes it -24321 |
| `OptimizerStmt.OptStmtKeeps` | aseba/compiler/tree-optimize.cpp:32-205 | Optimisation preserves meaning: a well-typed statement that ends, without a fault and without a division that becomes a wrong shift, ends alike after optimisation with the same variables and messages, if the constants that it folds may be folded and no `when` with code folds to true |
| `OptimizerStmt.IfKeeps` | aseba/compiler/tree-optimize.cpp:63-135 | The same for conditionals: removed, replaced by one of their blocks, or folded |
| `OptimizerStmt.WhileKeeps` | aseba/compiler/tree-optimize.cpp:142-186 | The same for loops, a removed loop with an empty body included |
| `OptimizerStmt.OptBlockKeeps` | aseba/compiler/tree-optimize.cpp:32-53 | The same for blocks from which children are erased |
| `OptimizerExpr.OptExprKeeps` | aseba/compiler/tree-optimize.cpp:215-436 | An optimised expression has the value of the original |
| `OptimizerExpr.BinaryKeeps` | aseba/compiler/tree-optimize.cpp:215-367 | Folding, neutral and absorbing elements and strength reduction keep the value of a binary node |
| `OptimizerExpr.WideFold` | aseba/compiler/tree-optimize.cpp:225-271 | For constant trees of +, -, *, negation, ~, bitwise or, xor and and, and left shifts by constants that C defines, folding in wide integers gives the low 16 bits of step-by-step 16-bit evaluation, whatever overflows on the way |
| `OptimizerExpr.WideFoldEmitted` | aseba/compiler/tree-emit.cpp:32-44 | ... and the emitted immediate pushes that value |
| `Folding.NarrowFold` | aseba/compiler/tree-optimize.cpp:225-271 | By comparison operator, exactly the wide constants that may be compared with every word: none for == and !=, for an order those beyond the end of the words at which their own word lies |
| `Folding.ComparisonFold` | aseba/compiler/tree-optimize.cpp:225-271 | Folding a comparison of any two constants is right exactly when they are equally far from their words, or their words compare as these distances do |
| `Folding.DivFold` | aseba/compiler/tree-optimize.cpp:225-271 | Folding a division of a wide constant by a word gives what the machine computes exactly when 65536 times the divisor divides its distance from its word and both are truncated the same way |
| `Folding.ModFold` | aseba/compiler/tree-optimize.cpp:225-271 | The same for remainders, with the divisor alone |
| `Folding.EveryDivisor` | aseba/compiler/tree-optimize.cpp:225-271 | Of the integers of the folder, exactly the words may be divided by every word, and taken modulo every word |
| `Folding.DivisorFold` | aseba/compiler/tree-optimize.cpp:225-271 | Exactly the words are divisors for every word; for remainders 32768 is one too |
| `Folding.RightShiftFold` | aseba/compiler/tree-optimize.cpp:225-271 | Folding a right shift is right exactly when the bits that it moves into the word are copies of the sign of the constant as a word |
| `Folding.AbsFold` | aseba/compiler/tree-optimize.cpp:399-419 | Folding an absolute value is right exactly when the constant has the sign of its word, or that word is 0 or -32768 |
| `Folding.FitsAgrees` | aseba/compiler/tree-optimize.cpp:225-271 | Under these conditions folding two constants agrees with 16-bit evaluation, for every operator |
| `OptimizerExpr.WideFoldWrong` | aseba/compiler/tree-optimize.cpp:225-271 | 32767 + 1 > 0 folds to true, the machine says false |
| `OptimizerExpr.PowerDivision` | aseba/compiler/tree-optimize.cpp:347-359 | Division of anything that is not constant by 2^k becomes an arithmetic shift, which keeps the value exactly when the dividend is not negative or a multiple of 2^k, and for k = 15 exactly when it is not negative |
| `OptimizerExpr.PowerDivisionWrong` | aseba/compiler/tree-optimize.cpp:353-358 | -1 / 2 is 0, its optimised form gives -1 |
| `OptimizerExpr.DeMorganNegates` | aseba/compiler/tree-optimize.cpp:371-393 | De Morgan removal yields the negated value and the same faults |
| `Optimizer.DeMorganTwice` | aseba/compiler/tree-optimize.cpp:371-393 | It is its own inverse |
| `Optimizer.DeMorganDefined` | aseba/compiler/tree-optimize.cpp:371-393 | It succeeds exactly on trees of comparisons joined by and/or, and gives another one |
| `Optimizer.OptExprNormal` | aseba/compiler/tree-optimize.cpp:215-436 | A well-typed condition becomes 0, 1 or a tree of comparisons joined by and/or, no `not` is left in any well-typed expression, and no cast fails on the way |
| `Optimizer.OptStmtNoCrash` | aseba/compiler/tree-optimize.cpp:63-186 | No well-typed statement makes the optimiser abort or cast wrongly |
| `Optimizer.UncheckedIndexCrashes` | aseba/compiler/tree-typecheck.cpp:134-149 | An index `not (x + 1)` passes typeCheck and makes de Morgan removal abort |
| `Optimizer.AbortsExactly` | aseba/compiler/tree-optimize.cpp:376-436 | The exact condition, for all expressions, well-typed or not: the optimiser aborts exactly when it comes to a `not` whose operand became a binary node that is not a tree of comparisons |
| `Optimizer.StmtAbortsExactly` | aseba/compiler/tree-optimize.cpp:63-205 | The same for all statements, with the casts of the conditions of conditionals and loops |
| `Optimizer.UntypedIndexPasses` | aseba/compiler/tree-typecheck.cpp:134-149 | An ill-typed index `x == y` does not abort |
| `Refusals.RefusedExactly` | aseba/compiler/tree-optimize.cpp:215-472 | A well-typed expression that has a value in some memory, and whose constants may be folded, is refused exactly if a constant index is outside the unsigned words, the absolute value of the constant -32768 is taken, or one constant is shifted by another that is no word |
| `Refusals.TargetRefusedExactly` | aseba/compiler/tree-optimize.cpp:475-496 | The same for the index of a target that can be written |
| `Refusals.ConstantRead` | aseba/compiler/tree-optimize.cpp:452-473 | A constant index is refused exactly if reading there faults; otherwise the read becomes a load |
| `Refusals.ConstantWrite` | aseba/compiler/tree-optimize.cpp:475-496 | The same for writes |
| `Refusals.ConstantDivisor` | aseba/compiler/tree-optimize.cpp:232-253 | A constant divisor is refused exactly if it is 0, except that the remainder of a variable by 0 is not refused |
| `Refusals.ConstantAbs` | aseba/compiler/tree-optimize.cpp:399-419 | Of constants, exactly the absolute value of -32768 is refused |
| `Refusals.ConstantShift` | aseba/compiler/tree-optimize.cpp:232-253 | Shifts of constants are refused exactly outside 0..31 |
| `Refusals.StmtRefusedExactly` | aseba/compiler/tree-optimize.cpp:32-205 | A well-typed statement is refused exactly if one of its expressions or targets is, or the condition of one of its loops folds to true |
| `Refusals.ItemsRefusedExactly` | aseba/compiler/tree-optimize.cpp:32-53 | The same for a whole source |
| `Refusals.RefusedLoopNeverEnds` | aseba/compiler/tree-optimize.cpp:142-186 | A loop that is refused for its condition never ends normally |
| `Settled.OptimisedSettled` | aseba/compiler/tree-optimize.cpp:215-436 | Nothing is left to do in an optimised expression: no node of two constants, no neutral or absorbing element, no factor or divisor that is a power of two on the right, no constant index, no `not` |
| `Settled.SettledExactly` | aseba/compiler/tree-optimize.cpp:215-436 | The optimiser leaves a well-typed expression as it is exactly if nothing is left to do; optimising twice is optimising once |
| `Settled.OptimisedTidy` | aseba/compiler/tree-optimize.cpp:32-205 | In an optimised statement all expressions are so, all conditions folded, and no block, conditional or loop is empty |
| `Types.IntegersExactly` | aseba/compiler/tree-typecheck.cpp:98-148 | Exactly the expressions without comparisons and logic are integers |
| `Types.ConditionsExactly` | aseba/compiler/tree-typecheck.cpp:57-148 | Exactly comparisons of integers, joined by and, or and not, are conditions |
| `Optimizer.OptimizeBlock` | aseba/compiler/tree-optimize.cpp:32-53 | The loop that erases children computes the optimised block |
| `Optimizer.StrengthReduce` | aseba/compiler/tree-optimize.cpp:347-359 | The test and the shift count come from the power-of-two loops |
| `InPlace.Optimize` | aseba/compiler/tree-optimize.cpp:215-473 | Expression nodes are rewritten in place, or replaced by surviving or new nodes: the resulting nodes represent the optimised tree, and none of them belongs to anyone else |
| `InPlace.Node.DeMorganNotRemoval` | aseba/compiler/tree-optimize.cpp:371-393 | Overwrites the operators of the nodes of a tree of comparisons, which becomes the negated tree with the same nodes |
| `InPlace.OptimizeBinary` | aseba/compiler/tree-optimize.cpp:225-367 | The same for a binary node with optimised children |
| `InPlace.OptimizeUnary` | aseba/compiler/tree-optimize.cpp:395-436 | The same for a unary node |
| `InPlace.Survivor` | aseba/compiler/tree-optimize.cpp:274-310 | The surviving child next to a neutral element |
| `InPlace.Absorb` | aseba/compiler/tree-optimize.cpp:312-344 | The value next to an absorbing element |
| `InPlace.Reduce` | aseba/compiler/tree-optimize.cpp:346-359 | Operator and constant are overwritten |
| `Source.OptStmtEmits` | aseba/compiler/tree-emit.cpp:129-386 | What the optimiser leaves of a well-typed statement meets all that `emit` asserts, whatever constants it folds |
| `Source.OptItemsUnits` | aseba/compiler/tree-optimize.cpp:32-53 | Optimising the children of the program node optimises every handler and every subroutine as a block of its own |
| `OptimizerStmt.ConstantWhen` | aseba/compiler/tree-optimize.cpp:91-107 | A `when` whose condition folds to true is replaced by its block; where the source remembers the condition as true it does nothing, so that both agree exactly on the states that the optimised block leaves unchanged |
| `OptimizerStmt.IdleConstantWhen` | aseba/compiler/tree-optimize.cpp:91-107 | If the optimised block is idle (it assigns variables to themselves only, sends nothing and calls nothing) both agree wherever the block ends |
| `OptimizerStmt.FreshConstantWhen` | aseba/compiler/tree-optimize.cpp:91-107 | Where the source does not remember it, they agree but for that memory |
| `Source.ConstantWhenFires` | aseba/compiler/tree-optimize.cpp:91-107 | A `when` that assigns and runs every time instead of once |
| `Naming.WhenFreeNamed` | aseba/vm/vm.c:379-420 | A source statement without `when` has, once optimised, no branch memory to name |
| `Words.IsPOT` | aseba/compiler/power-of-two.h:29-36 | True exactly for the numbers 2^k |
| `Words.ShiftFromPOT` | aseba/compiler/power-of-two.h:38-50 | Returns k for 2^k |
| `Words.Log2IsPower` | aseba/compiler/power-of-two.h:29-50 | The exponent function of the model is defined exactly on those numbers |
| `Words.BitwiseWord` | aseba/compiler/tree-optimize.cpp:250-252 | The low 16 bits of bitwise or, xor and and depend only on those of the operands |
| `OperatorLaws.SumLaws` | aseba/compiler/tree-optimize.cpp:225-271 | For all integers, as the folder adds and subtracts them: addition counts on from x one step for each in y, and subtraction undoes it |
| `OperatorLaws.WordSums` | aseba/vm/vm.c:85-135 | The same for words: the next word after 32767 is -32768; x - y is the word to which adding y gives x |
| `OperatorLaws.ProductLaws` | aseba/compiler/tree-optimize.cpp:225-271 | Multiplication adds x once for each in y |
| `OperatorLaws.WordProducts` | aseba/vm/vm.c:85-135 | The same for words |
| `OperatorLaws.DivisionLaws` | aseba/compiler/tree-optimize.cpp:225-271 | Division and remainder fail exactly by 0; dividend, divisor, quotient and remainder fit together, and the remainder is smaller than the divisor and has the sign of the dividend |
| `OperatorLaws.WordDivision` | aseba/vm/vm.c:85-135 | The same for words, except -32768 / -1, which is -32768 |
| `OperatorLaws.ShiftCounts` | aseba/compiler/tree-optimize.cpp:225-271 | Shifts fail exactly by counts outside 0..31 |
| `OperatorLaws.ShiftLaws` | aseba/compiler/tree-optimize.cpp:225-271 | One more to the left doubles, one more to the right drops the last bit, of negative numbers too |
| `OperatorLaws.WordShifts` | aseba/vm/vm.c:85-135 | The same for words |
| `OperatorLaws.BitLaws` | aseba/compiler/tree-optimize.cpp:225-271 | Each bit of a bitwise operation comes from the two bits at its place |
| `OperatorLaws.BitSums` | aseba/compiler/tree-optimize.cpp:225-271 | Exclusive or plus twice the and is the sum; so is inclusive or plus the and |
| `OperatorLaws.WordBits` | aseba/vm/vm.c:85-135 | Bitwise operations of words need no truncation |
| `OperatorLaws.OrderLaws` | aseba/compiler/tree-optimize.cpp:225-271 | `<` is the order in which each number is less than the next; the other comparisons are its converse, their negations and their conjunction |
| `OperatorLaws.LogicLaws` | aseba/compiler/tree-optimize.cpp:225-271 | `or` asks whether one of two numbers is not 0, `and` is its dual, `not` asks for 0 |
| `OperatorLaws.WordTruths` | aseba/vm/vm.c:85-135 | Comparisons and logic give the same for words |
| `OperatorLaws.UnaryLaws` | aseba/compiler/tree-optimize.cpp:399-419 | x + -x is 0, x + ~x is -1, and the absolute value is x or -x and not negative |
| `OperatorLaws.WordUnary` | aseba/vm/vm.c:137-150 | The same for words; -32768 is its own negation and absolute value |
| `OperatorLaws.Numbering` | aseba/common/consts.h:84-118 | Operators are emitted as their place in the enumerations, and the machine applies the operator of that place |
| `OperatorLaws.AccessLaws` | aseba/vm/vm.c:240-315 | Reading and writing an array element go to the same word, and fail alike exactly outside the array or the memory |
| `OperatorLaws.VariableLaws` | aseba/vm/vm.c:202-238 | What is written to a variable is read from it, and no other changes |
| `VectorAssign.AssignmentExpands` | aseba/compiler/tree-expand.cpp:207-248 | Vector assignment is simultaneous: the target gets the right-hand side evaluated in the memory before it, and nothing else changes but the temporary |
| `VectorAssign.DirectRuns` | aseba/compiler/tree-expand.cpp:237-247 | Without a temporary that holds when the target does not occur on the right or has one element |
| `VectorAssign.DirectSwapWrong` | aseba/compiler/tree-expand.cpp:218-236 | v = [v[1], v[0]] without the temporary loses an element |
| `VectorAssign.Allocator.ExpandAssignment` | aseba/compiler/tree-expand.cpp:207-248 | Allocates a temporary exactly when the target occurs on the right and has several elements, and builds the scalar assignments |
| `VectorAssign.Allocator.AllocateTemporaryMemory` | aseba/compiler/parser.cpp:217-228 | Takes room at the end of memory, refused exactly when it would reach the variables |
| `VectorAssign.IncrementEval` | aseba/compiler/tree-expand.cpp:88-136 | v++ adds one to every element of v |
| `VectorAssign.CompoundEval` | aseba/compiler/tree-expand.cpp:119-137 | target op= e has a value exactly if both sides have equally many elements and op is defined on each pair; the value is target op e, element by element |
| `VectorAssign.CompoundRuns` | aseba/compiler/tree-expand.cpp:119-137 | Expanded and run, it leaves target op e in the target, both evaluated before the assignment, and changes no other variable |
| `VectorAssign.SteppedRuns` | aseba/compiler/tree-expand.cpp:88-117 | v++ moves each element on to the next word, v-- back to the one before, and no other variable changes |
| `VectorAssign.TemporaryExactly` | aseba/compiler/tree-expand.cpp:170-220 | A temporary is taken exactly for targets of several elements of which the right-hand side names the array, in an index too |
| `VectorAssign.FitsExactly` | aseba/compiler/parser.cpp:217-228 | There is room for it exactly if some place above the variables and below all temporaries is as large |
| `Vectors.ElementEval` | aseba/compiler/tree-expand.cpp:250-314 | Each element of a vector expression that evaluates expands to a scalar tree with its value |
| `Vectors.SizeOfValue` | aseba/compiler/tree-expand.cpp:422-500 | A vector expression that evaluates has the size that the compiler computes |
| `Vectors.ElementAvoids` | aseba/compiler/tree-expand.cpp:170-183 | An expression in which a name does not occur reads nothing of that array |
| `ForLoops.ForRuns` | aseba/compiler/parser.cpp:546-598 | A loop whose body leaves the index alone runs it on start, start + step, ... once each and ends with the index one step further, if that value fits a word |
| `ForLoops.ForGoesOn` | aseba/compiler/parser.cpp:546-598 | Whether or not that value fits: after the intended rounds the loop goes on as its condition says, on the word of the next value |
| `ForLoops.ForEndsExactly` | aseba/compiler/parser.cpp:546-598 | The loop ends after the intended rounds exactly when the next value fits a word |
| `ForLoops.ValuesAre` | aseba/compiler/parser.cpp:546-598 | These are (end - start) / step + 1 values, none past the end |
| `ForLoops.SingleRuns` | aseba/compiler/parser.cpp:562-574 | With equal bounds the body runs once, without a loop |
| `ForLoops.UnitStepFits` | aseba/compiler/parser.cpp:545-557 | The guards make it fit for steps 1 and -1 |
| `ForLoops.ForAccepted` | aseba/compiler/parser.cpp:536-557 | The parser accepts a loop exactly if the step is not 0, the loop has a value, and its end is not the last word in the direction of the step; the error tells which |
| `ForLoops.WrapGoesOn` | aseba/compiler/parser.cpp:576-598 | If it does not fit, the condition holds for the wrapped index, whatever the loop |
| `ForLoops.LargeStepWraps` | aseba/compiler/parser.cpp:545-557 | 0:32766 step 2 passes the guards, and the loop never ends by itself |
| `Deque.InsertLeftExact` | aseba/vm/natives.c:1083-1091 | Insertion in the left half is list insertion for all contents exactly when it is at the front or the new start is below the number of inserted words |
| `Deque.InsertLeftView` | aseba/vm/natives.c:1083-1091 | ... and then it is |
| `Deque.InsertLeftWrong` | aseba/vm/natives.c:1083-1091 | ... and otherwise contents that come out wrong |
| `Deque.InsertRightView` | aseba/vm/natives.c:1092-1101 | Insertion at or after the middle is list insertion |
| `Deque.InsertBeyond` | aseba/vm/natives.c:1104-1123 | Insertion beyond the last element is not refused: it takes in stale words, cuts off inserted ones, and overwrites the first elements with those that pass the end of the buffer |
| `Deque.EraseLeftView` | aseba/vm/natives.c:1143-1150 | Erasing before the middle is list erasure |
| `Deque.EraseRightView` | aseba/vm/natives.c:1151-1157 | Erasing at or after the middle is list erasure |
| `DequeNatives.DequeShift` | aseba/vm/natives.c:960-964 | The in-place loop computes the shift, and touches only the buffer |
| `DequeNatives.DequeGet` | aseba/vm/natives.c:1008-1027 | Copies elements out, refused exactly when the index is negative or elements are missing; refused calls change nothing |
| `DequeNatives.DequeSet` | aseba/vm/natives.c:1034-1062 | Overwrites elements, under the same conditions |
| `DequeNatives.InsertLow` | aseba/vm/natives.c:1069-1102 | Refused exactly without room; otherwise the contents are those of the shift and the copy, for every index and start, and list insertion where that is sound |
| `DequeNatives.DequeInsert` | aseba/vm/natives.c:1104-1123 | The same behind the range check of the index |
| `DequeNatives.DequePushFront` | aseba/vm/natives.c:1186-1196 | Prepends, refused exactly without room |
| `DequeNatives.DequePushBack` | aseba/vm/natives.c:1202-1214 | Appends, refused exactly without room |
| `DequeNatives.EraseLow` | aseba/vm/natives.c:1130-1158 | Erases elements, refused exactly when they are missing |
| `DequeNatives.DequeErase` | aseba/vm/natives.c:1160-1180 | The same behind the range check, a negative length included |
| `DequeNatives.DequePopFront` | aseba/vm/natives.c:1220-1232 | Splits the list into what is copied out and what remains |
| `DequeNatives.DequePopBack` | aseba/vm/natives.c:1238-1252 | The same at the back |
| `CombSort.Sort` | aseba/vm/natives.c:260-285 | For every array ends with a sorted permutation, and leaves the words behind it alone |
| `CombSort.Pass` | aseba/vm/natives.c:272-284 | A pass with swaps decreases the disorder, one without leaves elements that are a gap apart in order |
| `CombSort.SwapDecreases` | aseba/vm/natives.c:275-280 | Each swap decreases the disorder and permutes |
| `EditDistance.Distance` | aseba/compiler/identifier-lookup.cpp:69-94 | The two rows compute the recursive Levenshtein distance |
| `EditDistance.LeastEdits` | aseba/compiler/identifier-lookup.cpp:66-94 | ... which is the least number of insertions, deletions and substitutions |
| `EditDistance.NoCheaperScript` | aseba/compiler/identifier-lookup.cpp:66-94 | No edit script is cheaper |
| `EditDistance.CheapestScript` | aseba/compiler/identifier-lookup.cpp:66-94 | Some edit script costs just that |
| `EditDistance.Suggest` | aseba/compiler/identifier-lookup.cpp:98-120 | Suggests the first of the closest known names, exactly when one is closer than 3 |
| `Firmware.ExtractPages` | aseba/thymio-device-manager/thymio2_fwupgrade.cpp:187-216 | The bytes of the chunks land in the pages and at the offsets of their addresses, all other bytes of the pages are 0, and there are no other pages but those of chunks without bytes; if no record is fused at the head of a chunk and none overlap, these are the bytes of the records, in whatever order they come |
| `Firmware.Addresses` | aseba/thymio-device-manager/thymio2_fwupgrade.cpp:199-212 | The layout in terms of a / 2048 and a % 2048 |
| `Firmware.CopyChunk` | aseba/thymio-device-manager/thymio2_fwupgrade.cpp:194-214 | One chunk, over all the pages it touches, at least one |
| `Firmware.AddedBytes` | aseba/thymio-device-manager/thymio2_fwupgrade.cpp:78-101 | Adding a record of new bytes keeps all bytes at their addresses exactly when it is not fused at the head of a chunk |
| `Firmware.AddRecord` | aseba/thymio-device-manager/thymio2_fwupgrade.cpp:78-101 | The loop that looks for a chunk to fuse with |
| `Firmware.ReadRecords` | aseba/thymio-device-manager/thymio2_fwupgrade.cpp:57-102 | The records are added to the chunks one after the other |
| `Firmware.StoredBytes` | aseba/thymio-device-manager/thymio2_fwupgrade.cpp:57-102 | Records that do not overlap end up in ordered chunks with the same bytes, if none is fused at the head of a chunk |
| `Firmware.AscendingSuffices` | aseba/thymio-device-manager/thymio2_fwupgrade.cpp:57-102 | In ascending order none is |
| `Firmware.ContiguousFuse` | aseba/thymio-device-manager/thymio2_fwupgrade.cpp:78-101 | Records of which each continues the one before end up in a single chunk |

## Left out

- Front.CompileSource: units of more than 4096 words, over which the argument of a jump cannot count, are excluded. The run theorems exclude units of more than 2048 words, since jumps are signed; Layout.SmallProgramLinkable shows that no unit of a program for a target of at most 2048 words is that long.
- Compiler.Link: beyond 4096 words an address does not fit the call word, and the words are not described; their number and whether they fit are.
- Front.CompiledRuns: says nothing of sources that fault, since the optimiser removes operations that could fault.
- OptimizerStmt.OptStmtKeeps: one direction only; a removed loop over an empty body may end where the source does not.
- OptimizerExpr.OptExprKeeps: shifts by negative counts or by 32 and more are undefined in C; they stop the model's machine with a fault and are refused by its folder, so that a source which evaluates has none. The width is that of a 32-bit `int`; where `int` has 16 bits, counts from 16 on are undefined too.
- OptimizerExpr.OptExprKeeps: a constant divisor that is not a word is asked to suit every word as dividend; for all other pairs of constants the condition is exact.
- Programs.EmitProgram: each unit's stack depth is computed while its statements are emitted; the code computes it in a second pass over the same children.
- VmRuns.HandleEvent: runs that come to the open end of a subroutine are excluded, since from there on the machine performs whatever words come next; Pipeline.SealedNoOpenEnd says which handlers have none.
- VmRuns.BareRun: with the limit 0, handlers that run for ever are excluded, since the loop does not end for them.
- VectorAssign.AssignmentExpands: a declared array with the name of a temporary (`temp0` and so on) is excluded.
- Front.CompiledRuns: says nothing of what happens behind an open end.
- ForLoops.ForRuns: starts from the parsed loop, not from the token queue.
- DequeNatives.DequeShift: arrays of at most 4096 words, the ones that bytecode can address, for which the 16-bit parameters do not wrap around.
- Optimiser on statements: the nodes of conditionals, loops and assignments are modelled on values; only the erasing loop of blocks and the nodes of expressions are in place. C++ ownership and deletion of nodes are not modelled.
- Native calls in the compiled language: only the order and depth of their arguments are modelled, not the call.
- Signed overflow of 32-bit integers in constant folding: the model folds in unbounded integers.
- Machine addresses outside the variables or the bytecode: the model stops with a fault, as the assertions of a debug build do.
- Breakpoints, step-by-step flags and the messages about them.
- Source lines of bytecode, dumps, disassembly and error texts.
- The lexer and the rest of the parser, whose trees are the input here.
- Name tables of the compiler, apart from the suggestions.
- Mathematical natives and element-wise vector natives, which are tables or single loops.
- The device manager apart from the page layout of firmware, and the decoding of hexadecimal records.
