# Verified models of a bytecode compiler and a small kernel

Two programs are modelled. `bytecode-vm` compiles a small imperative language to bytecode and runs
it on a stack machine; `pelikanOS` is a 32-bit kernel with a round-robin scheduler, mutexes, a
reaper, a frame allocator, a page table, a heap and a keyboard buffer.

## How the project is laid out

| files | what they hold |
|---|---|
| `Syntax`, `Semantics` | trees, 32-bit arithmetic, and the meaning of a program as a big-step interpreter |
| `Lexer`, `Parser`, `Precedence`, `RoundTrip` | text to tokens to trees, the grammar the code really has, printing and reading back |
| `CodeGen`, `Emitter` | the bytes of a program as pure functions, and `walk` writing and patching them in place |
| `Machine` | the stack machine as a step function, and `vm_run` updating it in place |
| `Simulation`, `CompilerCorrect`, `Pipeline` | the compiler's correctness and its exact conditions, end to end |
| `Arithmetic`, `Layout`, `Grammar`, `Programs` | what each operator and instruction computes in plain integers, how a text may be laid out, the grammar routine by routine, and what running a text comes to |
| `Scheduling`, `SchedulingRuns` | scheduler, mutexes and reaper as atomic steps, their invariant, and what holds over whole runs |
| `TaskQueues`, `Kernel` | the linked queues and the circular list, and the kernel operations on them taking exactly those steps |
| `Frames`, `Paging`, `HeapBlocks`, `Coalescing`, `Heap`, `Keyboard` | frame bitmap, two-level page table, heap, ring buffer |

Each part has a specification on values, theorems about that specification over all inputs or all
runs, and methods in the form of the C code that are proved to compute it.

What C leaves undefined is an outcome of its own, never assumed away: signed overflow
(`IntOverflow`), reading outside the emitted code (`OffCode`), buffer overruns in the lexer
(`Undefined`) and the parser's missing error paths (`Broken`).

## Where the code departs from what it says

- The comment at compiler.c:7-15 describes the usual precedence; compiler.c:339 and 344 parse the
  right operand of `*` and `/` as a whole expression. `Precedence.PrecedenceExact` says exactly when
  the two agree.
- Operands and jump targets are cut to one byte, and a name without a slot yields a load without an
  operand. `CodeGen.Compilable` collects what a program must meet. Behind any compilable program that
  ends, `LiteralExact` and `NameReadExact` show a printed literal and a printed name to come out right
  exactly under its conditions. `SkipExact` shows an `if` or `while` that is passed over to land
  behind itself, and `BackJumpExact` a loop that is entered to come back to its test, exactly when
  that address fits a byte; `StackNeedExact` does the same for an expression and the 256 stack slots.
  A wrong landing may do no harm by luck; `JumpTooFar` gives programs it sends into the underflow
  exit, `BackJumpTooFarHappens` one it sends into the unknown-opcode exit. A 257th name overruns `var_names` (compiler.c:47, 463), which is outside the model.
- A split in `kmalloc` leaves the successor's `prev` link stale; `HeapBlocks.MallocLinks` and
  `SplitLinks` say exactly when and which, `StaleFreeExact` exactly when `kfree` then fails to join
  free neighbours, `StaleLinkHappens` gives a run, and `Heap.Kheap.Kfree` shows that nothing worse
  comes of it as long as dead headers are not overwritten.
- `pmm_init` rounds the start of a region down (pmm.c:24), so a frame counts as available when its last
  byte is. `Frames.FreedAvailableExact` says exactly for which memory maps every frame it frees is
  available as a whole, and `PartlyAvailableHandedOut` gives a map where the first allocation is not.
- `vmm_unmap_page` does not look at the present bit; `Paging.UnmapRemovesOnePage` says exactly what
  is written then, and `UnmapDamagesPageZero` that right after `vmm_init` it clears a word of page 0.
- The reaper never restores its interrupt flag after its first body (scheduler.c:229-244);
  `SchedulingRuns.ReaperFlag` shows that it runs with interrupts off from then on and not before, and
  `ReaperLosesInterrupts` gives the run in which the first exit already does it.
- `mutex_unlock` does not ask who holds the mutex; `SchedulingRuns.ForeignUnlockLetsTwoIn` gives a run
  that puts two threads inside.
- `thread_exit` does not release what the thread holds: `SchedulingRuns.AbandonedWaitersStay` shows that
  whoever waits for such a mutex waits for ever, `AbandonedMutexHappens` gives a run, and
  `InsideLiveExact` and `WaitersHaveLiveHolder` say when it cannot happen.

## Model

| member | source | states |
|---|---|---|
| CompilerCorrect.SemanticPreservation | bytecode-vm/compiler.c:394-508 | a source run that ends is reproduced by the bytecode from the zeroed machine: same printed values, and a halt with every variable's slot at its source value (all other slots zero), or the same trap |
| CompilerCorrect.StopsAreSourceEnds | bytecode-vm/vm.c:95-221 | conversely every stop of the machine on compiled code is the end of the source run, with the same output, trap and variables |
| CompilerCorrect.TerminationEquivalence | bytecode-vm/compiler.c:482-495 | the machine stops exactly when the source program ends |
| CompilerCorrect.DivergenceMatchesPrefixes | bytecode-vm/compiler.c:482-495 | a program that never ends runs forever, and every source observation's output is the machine's output at some later pass |
| CompilerCorrect.OutputIsSourcePrefix | bytecode-vm/vm.c:208-212 | at every pass the machine's output is a prefix of the source output |
| CompilerCorrect.AlwaysSafe | bytecode-vm/vm.c:55-73 | at every pass of every run: fetch at an instruction boundary inside the code, stack within what the deepest expression needs, call stack unused, overflow, underflow and unknown-opcode exits not taken |
| CompilerCorrect.SmallProgramsAreSafe | bytecode-vm/vm.c:55-73 | code of at most 256 bytes never uses more than 85 stack slots |
| CompilerCorrect.Simulates | bytecode-vm/compiler.c:500-508 | each bounded observation of the source run is matched by a safe run of the machine |
| CompilerCorrect.LiteralExact | bytecode-vm/compiler.c:399-401 | after every compilable program that ends, a printed literal comes out modulo 256, so as written exactly when it lies in 0..255 |
| CompilerCorrect.NameReadExact | bytecode-vm/compiler.c:403-415 | after every compilable program that ends, printing a name gives the source's value exactly when the name has a slot; otherwise the load swallows the next opcode and the machine halts with nothing printed |
| CompilerCorrect.SkipExact | bytecode-vm/compiler.c:472-494 | after every compilable program that ends, an `if` or `while` whose condition is zero lands behind itself, with the source's output and variables, exactly when the code fits 256 bytes, and then halts there |
| CompilerCorrect.BackJumpExact | bytecode-vm/compiler.c:482-494 | after every compilable program that ends, one turn of an entered `while` whose body ends leaves the source's output and variables and an empty stack, and comes back to the loop's test exactly when that address is below 256 |
| CompilerCorrect.BackJumpTooFarHappens | bytecode-vm/compiler.c:492-493 | a loop at address 259 that turns once: the source ends, the machine leaves through the unknown-opcode exit |
| CompilerCorrect.JumpTooFar | bytecode-vm/compiler.c:481-494 | code of 260 bytes that passes over a body leaves through the underflow exit, where the source ends normally |
| CompilerCorrect.JumpTooFarHappens | bytecode-vm/compiler.c:472-481 | `if 0` with 85 prints is such a program |
| CompilerCorrect.StackNeedExact | bytecode-vm/vm.c:55-62 | after every compilable program that ends, an expression that has a value is printed exactly when it needs at most 256 slots; otherwise the overflow exit is taken |
| CompilerCorrect.OverflowExpr | bytecode-vm/vm.c:55-62 | an expression without room on the stack always ends in the overflow exit |
| Simulation.SimExpr | bytecode-vm/compiler.c:399-449 | expression code nets exactly one stack slot, its value, or traps as the source does |
| Simulation.SimSeq | bytecode-vm/compiler.c:451-495 | statement code leaves the stack empty, the variables agreeing and the instruction pointer at its end, at any nesting of if and while |
| Simulation.SimWhile | bytecode-vm/compiler.c:482-495 | one loop: test, exit jump, body and back jump against any number of source iterations |
| Simulation.BinaryStep | bytecode-vm/vm.c:110-173 | a binary instruction does to the two topmost values what its operator means, in the order they were pushed |
| Simulation.BoundarySeq | bytecode-vm/compiler.c:478-494 | every code fragment ends on an instruction boundary |
| Semantics.MeaningIsUnique | bytecode-vm/compiler.c:7-15 | observations of a source run agree: the fuel bounds what is seen, not what is meant |
| Syntax.TruncDivCharacterised | bytecode-vm/vm.c:128-136 | C division is the one quotient whose remainder is smaller than the divisor and never of opposite sign to the dividend |
| Arithmetic.SumsExact | bytecode-vm/vm.c:110-127 | `+`, `-` and `*` yield the integer result exactly where it fits 32 bits, and overflow exactly otherwise |
| Arithmetic.DivExact | bytecode-vm/vm.c:128-137 | `/` traps exactly on a zero divisor, and otherwise yields the quotient whose remainder is smaller than the divisor and has the sign of the dividend |
| Arithmetic.DivOverflows | bytecode-vm/vm.c:128-137 | of two ints only -2147483648 divided by -1 overflows |
| Arithmetic.ComparisonsExact | bytecode-vm/vm.c:138-173 | a comparison yields 1 where it holds and 0 where it does not |
| Arithmetic.NamesExact | bytecode-vm/vm.c:187-196 | a name reads as what was assigned last, or 0 |
| Arithmetic.BootExact | bytecode-vm/vm.c:39-53 | vm_init: at the first byte, empty stacks, 256 zeroes |
| Arithmetic.ArithmeticPass | bytecode-vm/vm.c:110-137 | one pass over 0x03 to 0x06 with a below b on top leaves a + b, a - b, a * b or the quotient, exactly where that fits |
| Arithmetic.ArithmeticStops | bytecode-vm/vm.c:110-137 | and stops the machine exactly where it does not fit or divides by zero |
| Arithmetic.ComparisonPass | bytecode-vm/vm.c:138-173 | one pass over 0x08 to 0x0A leaves 1 or 0 for a == b, a < b, a > b |
| Arithmetic.TakingPass | bytecode-vm/vm.c:107-212 | one pass over the instructions that take the topmost value: discard, print, conditional jump, store |
| Arithmetic.OtherPass | bytecode-vm/vm.c:101-215 | one pass over push, jump, load, call, return and halt |
| Arithmetic.ExitPass | bytecode-vm/vm.c:55-93 | which instruction leaves through which exit: 256 values on a stack, too few, or no instruction |
| CodeGen.SmallProgramsCompile | bytecode-vm/compiler.c:500-508 | code of at most 256 bytes has all jump targets in a byte, needs at most 85 of 256 stack slots and at most 63 of 256 globals |
| CodeGen.StackBoundIsTight | bytecode-vm/compiler.c:500-508 | 85 slots are really needed by some program of 256 bytes |
| CodeGen.NamesSeqExtend | bytecode-vm/compiler.c:451-466 | the name table only grows, keeps every slot, and never holds a name twice |
| CodeGen.GenAppend | bytecode-vm/compiler.c:503-505 | code of a concatenation is the concatenation of the codes, each for its own position and table |
| CodeGen.Slot | bytecode-vm/compiler.c:406-412 | the slot of a name is its first row in the table |
| Emitter.Compiler.Walk | bytecode-vm/compiler.c:394-498 | walk keeps every byte below its entry position, appends exactly the pure code for that position, and extends the table as the pure table is |
| Emitter.Compiler.WalkIf | bytecode-vm/compiler.c:472-481 | the placeholder of an `if` is patched to the position behind its block |
| Emitter.Compiler.WalkWhile | bytecode-vm/compiler.c:482-495 | the placeholder of a loop is patched to the position behind its back jump, and the back jump goes to the loop's start |
| Emitter.Compiler.WalkAssign | bytecode-vm/compiler.c:451-466 | the right-hand side is emitted before a new name gets its slot |
| Emitter.Compiler.WalkBody | bytecode-vm/compiler.c:478-480 | the loop over the statements of a body emits the code of the whole list |
| Emitter.Compiler.WalkExpr | bytecode-vm/compiler.c:399-449 | post-order emission of an expression |
| Emitter.Compiler.FindSlot | bytecode-vm/compiler.c:406-412 | the search over all 256 rows finds the first row of the name and nothing else |
| Emitter.Compiler.Generate | bytecode-vm/compiler.c:500-508 | generate_byte produces the compiled program from an empty table |
| Emitter.PrefixStep | bytecode-vm/compiler.c:478-480 | what one more statement of a body adds, and that it fits |
| Machine.Vm.RunLoop | bytecode-vm/vm.c:95-221 | the fetch loop takes exactly the steps of the value-level machine |
| Machine.Vm.Fetch | bytecode-vm/vm.c:96-219 | one pass of the loop, every opcode |
| Machine.Vm.Arithmetic | bytecode-vm/vm.c:110-137 | the second operand is popped first; division by zero exits |
| Machine.Vm.Compare | bytecode-vm/vm.c:138-173 | the comparisons with their swapped operands |
| Machine.Vm.Jump | bytecode-vm/vm.c:174-186 | absolute jumps, conditional on the popped value |
| Machine.Vm.PushValue | bytecode-vm/vm.c:55-62 | vm_push with its overflow exit |
| Machine.Vm.PopValue | bytecode-vm/vm.c:64-73 | vm_pop with its underflow exit |
| Machine.Vm.constructor | bytecode-vm/vm.c:38-53 | vm_init zeroes the machine |
| Machine.OutputGrows | bytecode-vm/vm.c:208-212 | nothing printed is ever unprinted |
| Machine.RunAdd | bytecode-vm/vm.c:96-96 | runs compose |
| Lexer.LexText | bytecode-vm/compiler.c:52-187 | the lexer's loop computes the token function, with its exit on a stray character and its undefined cases told apart |
| Lexer.NextToken | bytecode-vm/compiler.c:63-178 | one pass of the loop: word, number, space, symbol or `==` |
| Lexer.TokenCount | bytecode-vm/compiler.c:58-58 | there are never more tokens than characters, so only the end marker can lack a cell |
| Layout.CharacterClasses | bytecode-vm/compiler.c:64-172 | the letters, digits, six blanks and eleven symbols, one by one |
| Layout.StrayExit | bytecode-vm/compiler.c:173-176 | any other character is the error exit |
| Layout.WordExact | bytecode-vm/compiler.c:64-95 | a word is one token up to 31 characters, and overruns its buffer beyond |
| Layout.NumberExact | bytecode-vm/compiler.c:96-107 | a number is one token up to 31 digits and 2147483647 |
| Layout.DecimalExact | bytecode-vm/compiler.c:103-104 | digits count in the decimal system |
| Layout.LayoutBack | bytecode-vm/compiler.c:52-187 | however a token list is laid out, with any blanks before, between and behind the tokens, and none where the longest match allows, lexing gives it back |
| Layout.TouchExact | bytecode-vm/compiler.c:64-136 | blanks may be left out exactly unless a word meets a word or number, a number a number, or `=` a token starting with `=` |
| Layout.ScanLayout | bytecode-vm/compiler.c:58-183 | the token array has room for the end marker exactly if the text has more characters than tokens |
| Parser.Statement | bytecode-vm/compiler.c:219-282 | parse_statement with its loops, against the statement grammar |
| Parser.Block | bytecode-vm/compiler.c:246-276 | condition, one skipped token, at most 128 statements, closing brace |
| Parser.Comparison | bytecode-vm/compiler.c:284-308 | parse_comparison folds comparisons from the left |
| Parser.Expression | bytecode-vm/compiler.c:310-329 | parse_expression folds sums from the left |
| Parser.Term | bytecode-vm/compiler.c:331-350 | parse_term parses the right operand of `*` and `/` as a whole expression |
| Parser.Factor | bytecode-vm/compiler.c:352-374 | parse_factor; the token after a parenthesised comparison is skipped unseen |
| Parser.Program | bytecode-vm/compiler.c:376-392 | parser reads statements up to the end marker |
| Parser.ExpressionStops | bytecode-vm/compiler.c:310-350 | parse_expression never returns with `+ - * /` as the next token |
| Parser.TermLoopTurnsAtMostOnce | bytecode-vm/compiler.c:331-350 | so the loop of parse_term turns at most once |
| Parser.ExactGrammar | bytecode-vm/compiler.c:310-350 | parse_expression accepts exactly the chains of factors, and yields the left fold of the additive prefix whose last operand takes the rest of the chain behind the first `*` or `/` |
| Parser.ChainFrom | bytecode-vm/compiler.c:310-350 | the tree of every chain |
| Parser.ExpressionIsChain | bytecode-vm/compiler.c:310-350 | whatever is accepted is a chain |
| Grammar.OperatorTokens | bytecode-vm/compiler.c:284-350 | which tokens are operators of which kind |
| Grammar.ExactFactor | bytecode-vm/compiler.c:352-374 | a factor is exactly a name, a number, or a parenthesis, a whole comparison and any one token |
| Grammar.ExactComparison | bytecode-vm/compiler.c:284-308 | parse_comparison accepts exactly the chains of expressions joined by `==`, `>`, `<` with none behind, and folds them from the left |
| Grammar.ComparedAreArithmetic | bytecode-vm/compiler.c:284-350 | each of those is a chain of factors joined by `+ - * /` only, so comparisons bind looser |
| Grammar.ComparisonsFromTheLeft | bytecode-vm/compiler.c:284-308 | `3 > 2 > 1` is read as `(3 > 2) > 1` |
| Grammar.ExactSimple | bytecode-vm/compiler.c:219-243 | an assignment is exactly a name, `=` and a comparison; a print exactly its keyword and a comparison |
| Grammar.ExactBlock | bytecode-vm/compiler.c:244-276 | an `if` or `while` is exactly its keyword, a comparison, any one token, at most 128 statements and `}` |
| Grammar.StatementRejects | bytecode-vm/compiler.c:278-281 | parse_statement takes its error exit exactly where it, or a statement inside it, starts with a token that can start none |
| Grammar.ExactProgram | bytecode-vm/compiler.c:376-392 | parser accepts exactly the statements one behind the other up to the end marker |
| Precedence.PrecedenceExact | bytecode-vm/compiler.c:7-15 | the tree is the conventional one, as the opening comment describes it, exactly when no operator follows the first `*` or `/` |
| Precedence.ParsedAsConvention | bytecode-vm/compiler.c:310-350 | parse_expression on any chain of factors yields the conventional tree exactly then |
| Precedence.ProductThenSum | bytecode-vm/compiler.c:331-350 | `2 * 3 + 4` is read as `2 * (3 + 4)` |
| RoundTrip.TextRoundTrip | bytecode-vm/compiler.c:52-392 | printing a non-empty program with every operation in parentheses, lexing and parsing gives the same tree and consumes all tokens up to the end marker |
| RoundTrip.AcceptedTextNormalises | bytecode-vm/compiler.c:52-392 | whatever text is accepted, its tree can be printed and is read back to itself |
| RoundTrip.LexBack | bytecode-vm/compiler.c:52-187 | lexing printed tokens gives the tokens back |
| RoundTrip.FactorBack | bytecode-vm/compiler.c:352-374 | a printed expression is parsed back as one factor |
| RoundTrip.StatementBack | bytecode-vm/compiler.c:219-282 | a printed statement is parsed back when no operator follows it |
| RoundTrip.Decimal | bytecode-vm/compiler.c:96-107 | decimal digits read back by atoi give the number |
| Pipeline.EndToEnd | bytecode-vm/compiler.c:510-524 | text to tokens to tree to bytecode to output: the machine ends exactly when the program does, in the situation and with the output the program's meaning gives |
| Pipeline.CompileAndRun | bytecode-vm/compiler.c:510-524 | the stages chained as in main on any text: the error exits, the undefined cases of the front end, overruns of the code and name arrays, and otherwise the machine after any number of passes |
| Programs.MainFollowsProgram | bytecode-vm/compiler.c:510-524 | what main reports of a program written as text is at every moment a part of what it means, and once stopped exactly that, halted or trapped as the program does |
| Programs.MainEndsExact | bytecode-vm/compiler.c:510-524 | it stops exactly when the program ends, and every ended source run is what it then reports |
| Programs.RefusedExact | bytecode-vm/compiler.c:510-524 | which texts end in an error exit, and which in what C leaves open |
| Programs.OverrunExact | bytecode-vm/compiler.c:500-508 | which texts are programs that overrun the 4096 bytes of code or the 256 names, and which run |
| Programs.CountdownPrints | bytecode-vm/compiler.c:515-524 | main's own text, from its characters over its tokens, tree and 24 bytes to the values 3, 2, 1 and a halt |
| Programs.CountdownLexed | bytecode-vm/compiler.c:515-515 | its 16 tokens |
| Programs.CountdownCompiled | bytecode-vm/compiler.c:500-508 | its 24 bytes |
| Scheduling.StepInv | pelikanOS/src/scheduler.c:156-245 | every step (dispatch, tick, yield, exit, lock, unlock, create, reap, idle) keeps the whole invariant |
| Scheduling.SwitchOutInv | pelikanOS/src/scheduler.c:166-178 | the code behind the switch keeps it, whoever gave up the CPU |
| Scheduling.StepPlaced | pelikanOS/src/scheduler.c:156-245 | after every step each live thread is where its state field says |
| Scheduling.StepQueues | pelikanOS/src/scheduler.c:123-225 | after every step no queue repeats a thread and the reaper is awake if bodies wait |
| Scheduling.StepWakeup | pelikanOS/src/mutex_lock.c:33-57 | no step loses a wakeup |
| Scheduling.StepFrames | pelikanOS/src/scheduler.c:49-57 | live threads never share frames with each other or with the free list |
| Scheduling.InitInv | pelikanOS/src/kernel.c:74-80 | the state kmain sets up satisfies the invariant |
| SchedulingRuns.OnePlace | pelikanOS/src/scheduler.c:156-245 | in every reachable state a thread is in at most one of ready queue, dead queue, CPU and one wait queue, its state field agrees, no queue holds it twice, and only the sleeping reaper is nowhere |
| SchedulingRuns.MutexSafety | pelikanOS/src/mutex_lock.c:33-57 | if only holders unlock, at most one thread is between lock and unlock, and while threads wait the mutex is held or a woken one has yet to re-test it |
| SchedulingRuns.ExclusiveStep | pelikanOS/src/mutex_lock.c:47-57 | a step keeps the threads inside equal to the recorded holder exactly when it is no unlock of a held mutex by a non-holder |
| SchedulingRuns.ForeignUnlockLetsTwoIn | pelikanOS/src/mutex_lock.c:47-57 | a run in which an unlock by a non-holder, followed by its lock, puts two threads inside |
| SchedulingRuns.WokenRetests | pelikanOS/src/mutex_lock.c:33-45 | a woken waiter that runs is at the re-test and cannot be preempted before it |
| SchedulingRuns.ExitIsFinal | pelikanOS/src/scheduler.c:186-189 | an exited thread is never dispatched again and is unlinked at most once |
| SchedulingRuns.AbandonedWaitersStay | pelikanOS/src/mutex_lock.c:33-57 | behind a holder that has exited a waiter stays queued over every run in which only holders unlock: it is never ready and never runs |
| SchedulingRuns.AbandonedMutexHappens | pelikanOS/src/scheduler.c:186-189 | a run from boot ends with a waiter behind an exited holder |
| SchedulingRuns.InsideLiveExact | pelikanOS/src/scheduler.c:186-189 | a step keeps every thread inside a critical section live exactly when it is no exit of one of them |
| SchedulingRuns.WaitersHaveLiveHolder | pelikanOS/src/mutex_lock.c:33-57 | if moreover threads exit only outside, a mutex somebody waits for is held by a live thread or a woken waiter has yet to re-test it |
| SchedulingRuns.ReapReturnsFrames | pelikanOS/src/scheduler.c:227-245 | reaping returns exactly the two frames create_task took for that thread, which were not free |
| SchedulingRuns.FramesConserved | pelikanOS/src/scheduler.c:49-57 | free frames and frames of live threads together never change |
| SchedulingRuns.ReaperServes | pelikanOS/src/scheduler.c:170-174 | while bodies wait the reaper is ready or running |
| SchedulingRuns.BuriedInTurn | pelikanOS/src/scheduler.c:209-225 | the body at place k of the dead queue goes with the reap that follows exactly k others |
| SchedulingRuns.FallsAsleep | pelikanOS/src/scheduler.c:233-238 | with no body left the reaper's next yield puts it to sleep |
| SchedulingRuns.SleepsUntilExit | pelikanOS/src/scheduler.c:170-174 | a sleeping reaper is neither woken nor dispatched until a thread exits |
| SchedulingRuns.ReaperFlag | pelikanOS/src/scheduler.c:227-245 | over every run the reaper's interrupts are on exactly if they were and nothing has been reaped |
| SchedulingRuns.ReaperPreemptible | pelikanOS/src/scheduler.c:227-245 | from boot on, the timer can preempt the running reaper exactly when it has reaped nothing |
| SchedulingRuns.ReaperLosesInterrupts | pelikanOS/src/scheduler.c:227-245 | create, dispatch, exit, yield, dispatch: the reaper runs preemptible; after one body it no longer is |
| SchedulingRuns.BoundedWaiting | pelikanOS/src/scheduler.c:123-179 | the thread at place k of the ready queue is taken by the dispatch that follows exactly k others, and by none before |
| SchedulingRuns.MovesUp | pelikanOS/src/scheduler.c:123-153 | it moves up one place per dispatch, whatever else happens |
| SchedulingRuns.RoundRobin | pelikanOS/src/scheduler.c:156-184 | with n always-runnable threads the dispatch order repeats with period n |
| SchedulingRuns.WokenInTurn | pelikanOS/src/mutex_lock.c:3-57 | waiters of a mutex are woken in the order they came |
| Kernel.System.DispatchNext | pelikanOS/src/scheduler.c:157-165 | the loop of schedule up to the switch takes the dispatch step on the linked queues |
| Kernel.System.SwitchBack | pelikanOS/src/scheduler.c:166-178 | the part behind the switch: requeue, bury, or wake the reaper |
| Kernel.System.YieldNow | pelikanOS/src/scheduler.c:182-184 | yield |
| Kernel.System.ExitThread | pelikanOS/src/scheduler.c:186-189 | thread_exit up to its yield |
| Kernel.System.LockPass | pelikanOS/src/mutex_lock.c:33-45 | one pass of the retry loop in mutex_lock |
| Kernel.System.Unlock | pelikanOS/src/mutex_lock.c:47-57 | mutex_unlock hands the first waiter to the ready queue |
| Kernel.System.CreateTask | pelikanOS/src/scheduler.c:49-80 | create_task for an ordinary thread |
| Kernel.System.ReaperPass | pelikanOS/src/scheduler.c:229-244 | one pass of the reaper's loop |
| Kernel.System.constructor | pelikanOS/src/scheduler.c:248-250 | the system after spawn_reaper satisfies the initial condition |
| Kernel.SwitchFacts | pelikanOS/src/scheduler.c:166-178 | a thread that is queued behind the switch is linked in no queue |
| Kernel.ReleaseFacts | pelikanOS/src/mutex_lock.c:47-57 | a woken thread is linked in no other queue |
| TaskQueues.ReadyQueue.Add | pelikanOS/src/scheduler.c:123-134 | head, tail and links spell out the sequence with the newcomer last |
| TaskQueues.ReadyQueue.Remove | pelikanOS/src/scheduler.c:137-153 | the first of the sequence is unlinked; null on an empty queue |
| TaskQueues.WaitQueue.Add | pelikanOS/src/mutex_lock.c:3-12 | likewise for a mutex's waiters |
| TaskQueues.WaitQueue.Remove | pelikanOS/src/mutex_lock.c:14-27 | likewise |
| TaskQueues.DeadQueue.Add | pelikanOS/src/scheduler.c:195-206 | likewise for exited threads |
| TaskQueues.DeadQueue.Remove | pelikanOS/src/scheduler.c:209-225 | likewise |
| TaskQueues.TaskRing.Insert | pelikanOS/src/scheduler.c:16-30 | the circular list stays one doubly linked cycle, with the newcomer last |
| TaskQueues.TaskRing.Remove | pelikanOS/src/scheduler.c:32-46 | the cycle closes over a removed member, and a new last one is chosen if needed |
| TaskQueues.TaskRing.ListFrom | pelikanOS/src/scheduler.c:100-117 | a traversal from any member visits each once and stops |
| TaskQueues.CycleRotates | pelikanOS/src/scheduler.c:39-41 | a cycle may be read from any member |
| HeapBlocks.HeapStaysSound | pelikanOS/src/heap.c:20-162 | over every run from the empty heap the chain tiles the acquired frames, headers and sizes sum to 4096 per frame, blocks are disjoint and lie in acquired frames |
| HeapBlocks.MallocTiles | pelikanOS/src/heap.c:45-115 | an allocation keeps the tiling, and acquires a frame exactly when nothing fits |
| HeapBlocks.FreeTiles | pelikanOS/src/heap.c:142-160 | freeing and coalescing keep the tiling of the same frames |
| HeapBlocks.BlocksDisjoint | pelikanOS/src/heap.c:73-92 | headers and payloads of different blocks never overlap |
| HeapBlocks.SizesAddUp | pelikanOS/src/heap.c:27-27 | headers and sizes of a tiling sum to 4096 per frame |
| HeapBlocks.FirstFit | pelikanOS/src/heap.c:62-100 | the first free block that is large enough |
| HeapBlocks.SplitLinks | pelikanOS/src/heap.c:73-83 | a split makes an exact link of the block behind it stale and leaves every other link as exact as it was |
| HeapBlocks.MallocLinks | pelikanOS/src/heap.c:62-97 | from all links exact, an allocation keeps them so exactly when no block with a successor is split |
| HeapBlocks.JoinLinks | pelikanOS/src/heap.c:142-160 | a join repairs the link behind the joint block and leaves every other as exact as it was |
| HeapBlocks.FreeLinks | pelikanOS/src/heap.c:117-162 | freeing never makes a link stale |
| HeapBlocks.StaleFreeExact | pelikanOS/src/heap.c:151-160 | kfree joins a block with both neighbours exactly when its link is exact, or no free block before it in the chain touches it; otherwise the two stay apart, both free and touching |
| HeapBlocks.StaleLinkHappens | pelikanOS/src/heap.c:73-92 | a run of two allocations, a free and a smaller allocation makes a link stale, and freeing that block leaves two touching free blocks apart |
| Coalescing.FreeExact | pelikanOS/src/heap.c:142-160 | block by block: kfree makes the block, the next one if it is free and touches, and the previous one if the link names it and it is free and touches, one free block, and leaves every other block alone |
| Coalescing.JointCovers | pelikanOS/src/heap.c:142-155 | the joint block covers exactly the bytes of those it is made of, headers included |
| Coalescing.NothingFreeBehind | pelikanOS/src/heap.c:142-150 | no free block starts where it ends, exactly unless two free blocks touched there before |
| Coalescing.NothingFreeBefore | pelikanOS/src/heap.c:151-160 | with an exact link no free block ends where it starts, exactly unless two touched there before |
| Coalescing.FreeLeavesNone | pelikanOS/src/heap.c:142-160 | from all links exact and no two touching free blocks, kfree leaves no two touching free blocks |
| Coalescing.MallocExact | pelikanOS/src/heap.c:62-115 | block by block: the first free block large enough is used, split exactly if it has 21 bytes more, and never more than 20 bytes too large |
| Coalescing.MallocLeavesNone | pelikanOS/src/heap.c:62-115 | kmalloc never makes two free blocks touch |
| Coalescing.NoneTouchOverRuns | pelikanOS/src/heap.c:45-162 | over every run in which no block with a successor is split, all links stay exact and no two free blocks ever touch |
| Heap.Kheap.Kmalloc | pelikanOS/src/heap.c:45-115 | first fit in chain order; sizes 0 and above 4076 are refused; the chain and every single `prev` link afterwards, and stale links stay harmless |
| Heap.Kheap.Kfree | pelikanOS/src/heap.c:117-162 | with an exact `prev` link both touching free neighbours are joined, with a stale one only the next: in every run without writes over dead headers, what a stale link leads to never passes for a touching free block |
| Heap.Kheap.RequestSpace | pelikanOS/src/heap.c:20-43 | a fresh frame becomes one free block at the end of the chain |
| Heap.Kheap.UseBlock | pelikanOS/src/heap.c:63-97 | the exact, splitting and slack cases |
| Heap.Kheap.Absorb | pelikanOS/src/heap.c:142-160 | a free block takes in its touching successor, and the link behind is repaired |
| Heap.SplitLinked | pelikanOS/src/heap.c:73-83 | after a split the chain is right, every old link is kept and the new block's names the block split |
| Heap.JoinLinked | pelikanOS/src/heap.c:142-160 | joining keeps the chain, rewrites the `prev` link behind the joint block and keeps every other |
| Heap.TouchingIsPredecessor | pelikanOS/src/heap.c:151-151 | a block of the chain that a link once named and that ends where the link's owner starts is its predecessor |
| Heap.KeptTidy | pelikanOS/src/heap.c:151-160 | a link that is not rewritten stays exact or harmless unless the block it named exactly is joined away |
| Frames.FreedExact | pelikanOS/src/pmm.c:21-32 | a frame is freed for the memory map exactly when its last byte is reported available, so no available frame is missed |
| Frames.RegionFreesExact | pelikanOS/src/pmm.c:24-28 | the frames freed for one region all lie in it exactly when it starts on a frame boundary |
| Frames.FreedAvailableExact | pelikanOS/src/pmm.c:21-32 | every freed frame is available as a whole exactly when, for each region that starts inside a frame, the bytes of that frame before it are reported too |
| Frames.PartlyAvailableHandedOut | pelikanOS/src/pmm.c:24-24 | for a region starting 2048 bytes into a frame the first allocation hands that frame out, whose first byte is not available |
| Frames.FreeAtBoot | pelikanOS/src/pmm.c:34-48 | in addresses: a frame is free after pmm_init exactly when its last byte is reported, it is above the first megabyte and shares no byte with the kernel image |
| Frames.Pmm.Init | pelikanOS/src/pmm.c:11-58 | exactly the frames freed for the map, without the first megabyte and the kernel image, are free |
| Frames.Pmm.AllocFrame | pelikanOS/src/pmm.c:60-75 | the lowest free frame, or 0xFFFFFFFF when there is none |
| Frames.Pmm.AllocContiguous | pelikanOS/src/pmm.c:88-111 | the lowest run of n free frames, all of it and nothing else; failure with the bitmap unchanged exactly when there is no such run |
| Frames.Pmm.FreeFrame | pelikanOS/src/pmm.c:77-86 | exactly that frame becomes free |
| Frames.Pmm.FreeCount | pelikanOS/src/pmm.c:113-121 | the number of free frames |
| Frames.TakesFrameExact | pelikanOS/src/pmm.c:60-75 | in numbers: the lowest free frame times 4096, or 0xFFFFFFFF when none is free |
| Frames.TakesRunExact | pelikanOS/src/pmm.c:88-111 | in numbers: the lowest n of 32768 frames in a row, times 4096, or 0xFFFFFFFF when there are none |
| Frames.RunConserves | pelikanOS/src/pmm.c:60-121 | over every run frames handed out are disjoint from those outstanding, and free plus outstanding is constant, as sets and as counts |
| Frames.NeverLowNorKernel | pelikanOS/src/pmm.c:34-48 | no call ever hands out a frame below 1 MB, one that touches the kernel image, or one whose last byte is not reported; and where the starts of the regions are covered, as aligned ones are, every frame handed out is available as a whole |
| Frames.ServeOne | pelikanOS/src/pmm.c:60-111 | a wanted frame or run is always asked for as such, and giving back is refused exactly when the frame is not out |
| Frames.Serve | pelikanOS/src/pmm.c:60-111 | driven through any requests the allocator performs exactly those not refused, in their order, and keeps those books |
| Paging.RunAgrees | pelikanOS/src/vmm.c:32-72 | over every run the tables translate exactly as a flat page-to-frame map |
| Paging.MapChangesOnePage | pelikanOS/src/vmm.c:32-58 | mapping changes exactly one page; a fresh table changes no other translation |
| Paging.UnmapRemovesOnePage | pelikanOS/src/vmm.c:60-72 | unmapping removes exactly one page; page 0 is left alone exactly when the directory entry is present or the word there is zero |
| Paging.UnmapDamagesPageZero | pelikanOS/src/vmm.c:60-72 | right after vmm_init, unmapping anything above the first 4 MB clears the word of page 0 at its table index |
| Paging.FlagsExact | pelikanOS/src/vmm.c:48-48 | an entry gets the present and the write flag, and no other bit changes |
| Paging.MapEntryExact | pelikanOS/src/vmm.c:32-58 | the entry of a page mapped to an aligned frame is that frame plus 3 |
| Paging.InitWritable | pelikanOS/src/vmm.c:12-30 | after vmm_init every present entry allows writing |
| Paging.RunWritable | pelikanOS/src/vmm.c:32-72 | and so over every run |
| Paging.InitLaid | pelikanOS/src/vmm.c:12-30 | after vmm_init exactly the first 4 MB are mapped, each page to itself |
| Paging.Vmm.Init | pelikanOS/src/vmm.c:12-30 | vmm_init writes those tables |
| Paging.Vmm.MapPage | pelikanOS/src/vmm.c:32-58 | vmm_map_page writes those entries |
| Paging.Vmm.UnmapPage | pelikanOS/src/vmm.c:60-72 | vmm_unmap_page writes that entry |
| Paging.FlagsKeepFrame | pelikanOS/src/vmm.c:48-48 | setting the flags makes an entry present and keeps its frame |
| Keyboard.RunFifo | pelikanOS/src/keyboard.c:39-70 | under every interleaving bytes popped followed by bytes stored are the accepted bytes in order, the length stays within 256, and head is (tail + len) mod 256 |
| Keyboard.CriticalExact | pelikanOS/src/keyboard.c:48-58 | the critical section is right exactly when the buffer is not empty |
| Keyboard.StepFifo | pelikanOS/src/keyboard.c:39-70 | every interrupt, test and critical section keeps that |
| Keyboard.KeyLayout | pelikanOS/src/keyboard.c:7-17 | which byte each scancode stands for; releases and all other keys none |
| Keyboard.KeyboardBuffer.PushByte | pelikanOS/src/keyboard.c:39-46 | ringbuf_push in place |
| Keyboard.KeyboardBuffer.Handle | pelikanOS/src/keyboard.c:64-70 | keyboard_handler: releases and unmapped keys are ignored |
| Keyboard.ArrivingStores | pelikanOS/src/keyboard.c:39-70 | whatever interrupts come between test and critical section, the oldest byte is taken and the new bytes there is room for are stored behind the rest |
| Keyboard.KeyboardBuffer.GetChar | pelikanOS/src/keyboard.c:48-62 | kbd_getchar with the interrupts that arrive after its test takes exactly the steps of the interleaved system: it delivers the oldest byte, and leaves the rest followed by the new bytes there was room for |

## Left out

- Machine.Vm.RunLoop: observes the fetch loop for a given number of passes, for every number, because the loop itself need not end.
- Pipeline.CompileAndRun: what C does after overrunning the 4096-byte code array or the 256-row name table is not modelled; the overrun is an outcome.
- Lexer.LexText: the text is taken up to its terminating NUL, and characters outside ASCII count as stray.
- Kernel.System.LockPass: the linked kernel has the one mutex of kernel.c; the step system has any number of them.
- Kernel.System.CreateTask: the frames are taken to be available; pmm_alloc_contiguous's failure value is not checked by the source, and kmalloc and the stack image are not part of this step.
- Kernel.System.ReaperPass: remapping the guard page and kfree of the task structure are not part of this step.
- SchedulingRuns.ExitIsFinal: names threads by identity; that kmalloc may reuse the address of a reaped one is not modelled.
- Scheduling.StepInv: create_task, kmalloc inside it, and each switch are atomic; a second reaper and a thread exiting before spawn_reaper are not modelled.
- Heap.Kheap.Kmalloc: the frame is taken to be available; request_space tests for 0 while the allocator reports failure as 0xFFFFFFFF.
- Heap.Kheap.Kfree: is called with null or with a block of the chain, allocated or already free; the diagnostics, which print, halt until the next interrupt and go on, are not modelled, nor are foreign pointers, pointers to blocks joined away, and user writes into payloads, which may overwrite a dead header a stale link leads to.
- Heap.KeptTidy: headers are kept by their exact address, so a new header that overlaps a dead one at another address leaves the dead one readable; on the real bytes kfree may judge such a place differently.
- Frames.Pmm.Init: regions lie within the 32768 frames of the bitmap, and the walk over entry sizes is a walk over a sequence.
- Paging.Vmm.MapPage: table pages are reached by their physical address; that they must themselves be mapped once paging is on is not modelled.
- The saved registers, EFLAGS image and assembly of the context switch, the descriptor tables, interrupt controllers, timer and control registers: hardware effects.
- The per-instruction trace line of vm_run, print_tokens, heap_dump, VGA output, shell and clock: output only.
- my_malloc, itoa and string.c: they would only add easy members.
- num_of_tasks: it only counts creations.
