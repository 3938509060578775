# A verified model of rd's core

rd records the execution of Linux processes and replays it. This project models the parts of rd in which a small
mistake silently changes what a traced program does or what a debugger sees, and proves that they do not:

- **Seccomp filters** (`Bpf`, `SeccompRewriter`). rd rewrites the filters a tracee installs so that every result but
  ALLOW becomes a TRACE with a number, and maps the number back. The kernel's classic BPF machine is modelled, and
  the rewritten program is proved to report what the original returns, for all inputs and over all later installs.
- **Fast-forwarding string instructions** (`StringInsn`, `RepLoops`, `FastForward`). Instead of single-stepping a
  REP loop, rd runs many iterations at once with a doctored counter. The result is proved to be a state
  single-stepping reaches, short of every avoided register state and of every watched byte.
- **The gdb bytecode machine** (`Int64`, `GdbExpression`, `ExpressionCompiler`). The machine is proved to agree with
  its step relation, and code compiled from any expression tree is proved to compute the value of the tree.
- **File descriptor tables** (`FdTable`). The per-address-space cache of monitored descriptors is followed over every
  run of descriptor and process operations.
- **Syscall patching** (`Templates`, `AddressSpace`, `ExtendedJumps`, `TraceeMemory`, `StubMachine`,
  `SyscallStubs`, `StubExecution`, `MonkeyPatching`). Templates, the allocator of stubs, and patched sites run
  instruction by instruction from the site to the hook, over every run of patches.
- **XSAVE conversion** (`XSave`), **packets of the gdb remote protocol** (`GdbPacket`), **remote syscalls**
  (`RemoteSyscalls`) and **stack growth** (`GrowMap`).

Code that updates things in place is modelled as classes and methods, each proved against a function or a predicate;
the theorems are about those. `Words` holds machine words, bits and byte orders. The kernel, the processor and the
tracee appear only as what they do to registers, memory and mappings; the outcome of a syscall, of a read from a
socket or of a resumed tracee is a parameter.

Some properties one would expect turn out not to hold. For each there is a lemma with an input on which the code
misses it, and a lemma that says exactly when the code meets it:

- A filter that looks at the accumulator before it sets it sees what rd's own prefix left there
  (`StaleAccumulatorBreaksMeaning`, `MeaningPreservedIff`).
- A compare or scan loop whose flag exit falls on the last permitted iteration ends between two real states
  (`FlagExitOnLastHappens`, `RefinesSingleStepping`); `FlagExitOnLastIff` tells it from the memory before the call.
- A LODS loop can read a watched byte, because the decoder does not report its source pointer
  (`LodsCrossesWatchpoint`, `LodsUntouchedIff`).
- The decoder believes a REX.W prefix wherever it stands; the processor only right before the opcode
  (`RexBeforeRepIsMisread`, `DecoderDescribesIff`). The size is then too large, never too small, so the bound stays safe
  (`DecoderCovers`).
- The comment at `src/session/task/task_common.rs:1631-1632` says that a new task finds a valid cache. It is safe,
  but after a fork it can disable descriptors nobody monitors any more (`ForkCanLeaveStaleSlot`, `ForkExactIff`);
  the same goes for an exit or an exec (`ExitCanLeaveStaleSlot`, `LeaveExactIff`). Over whole runs,
  `CachesOverRuns` says exactly when the caches stay exact.
- A packet that arrives in two reads gets a wrong end (`SplitPacketMisread`, `ReadPacketRightIff`).
- A temporary block that lies over a syscall site need not be undone when the remote switches paths during its life
  (`BlockOverSiteIsNotRestored`, `SwitchInBlockRestoresIff`). `RemoteSyscallsRestore` covers every program whose
  blocks are clear of the sites or see no switch, which is where stacks lie.

`dafny verify dfyconfig.toml` checks the whole project.

## Model

| member | source | states |
|---|---|---|
| Bpf.CallsiteCheck | src/seccomp_bpf.rs:64-72 | the three instructions of a callsite check return ALLOW exactly when the low 32 bits of the instruction pointer are the callsite, and else go on with those bits in the accumulator |
| Bpf.AllowListMeaning | src/seccomp_bpf.rs:64-72 | any list of callsite checks in front of any program returns ALLOW for a listed callsite and otherwise runs the program |
| Bpf.RunAfterPrefix | src/seccomp_filter_rewriter.rs:168 | relative forward jumps make a program mean the same behind any prefix |
| Bpf.InitialAccumulatorIrrelevant | src/seccomp_filter_rewriter.rs:161-168 | a program without a path that reads the accumulator before setting it has the same result for every initial accumulator |
| Bpf.SeccompFilter.Allow | src/seccomp_bpf.rs:52-55 | appends exactly one instruction, a return of ALLOW |
| Bpf.SeccompFilter.AllowSyscallsFromCallsite | src/seccomp_bpf.rs:64-72 | turns the check list of some callsites into that of one callsite more |
| SeccompRewriter.TraceWithCarriesIndex | src/seccomp_filter_rewriter.rs:157 | OR-ing the data value with TRACE keeps both: the low half is the value, below the reserved one, and the high half is TRACE |
| SeccompRewriter.RewriteCodeStandsFor | src/seccomp_filter_rewriter.rs:136-160 | a successful rewrite changes only constant returns other than ALLOW, each into the TRACE of a table entry that holds the constant |
| SeccompRewriter.RunRewritten | src/seccomp_filter_rewriter.rs:136-160 | from any state, the rewritten program gives ALLOW exactly when the original does, and else a TRACE that decodes to the original's result in every later table |
| SeccompRewriter.InstalledFilterMeaning | src/seccomp_filter_rewriter.rs:136-168 | the installed program allows listed callsites and otherwise reports the original's result from the accumulator the prefix leaves |
| SeccompRewriter.MeaningPreserved | src/seccomp_filter_rewriter.rs:136-168 | for a filter that never reads the initial accumulator, the installed program allows listed callsites and otherwise reports the original's result |
| SeccompRewriter.MeaningPreservedIff | src/seccomp_filter_rewriter.rs:136-168 | for any filter, the result is reported faithfully if and only if the original gives the same result from the accumulator the prefix leaves |
| SeccompRewriter.StaleAccumulatorBreaksMeaning | src/seccomp_filter_rewriter.rs:161-168 | a filter that tests the initial accumulator allows a syscall on its own and denies it once installed, with any allow list that is not empty and does not list the caller |
| SeccompRewriter.RewriteSucceedsIff | src/seccomp_filter_rewriter.rs:137-155 | the rewrite succeeds if and only if every return is constant and all distinct results seen so far and now fit the data range; the table then holds exactly those results |
| SeccompRewriter.RunKeepsTable | src/seccomp_filter_rewriter.rs:46-56 | over any sequence of installs the two maps stay mutually inverse, dense, free of ALLOW and in range, and only grow |
| SeccompRewriter.EarlierFiltersKeepDecoding | src/seccomp_filter_rewriter.rs:75-92 | a filter installed early reports the same results through every later table |
| SeccompRewriter.SeccompFilterRewriter.RewriteInPlace | src/seccomp_filter_rewriter.rs:136-160 | rewriting the vector in place does what the functional rewrite does, or fails exactly when it fails |
| SeccompRewriter.SeccompFilterRewriter.InstallPatchedFilter | src/seccomp_filter_rewriter.rs:134-168 | the program built is the check list of all privileged exit points followed by the rewritten code |
| SeccompRewriter.SeccompFilterRewriter.MapFilterDataToRealResult | src/seccomp_filter_rewriter.rs:75-92 | values below the base are refused; any other is mapped to the result that every TRACE carrying it stands for |
| StringInsn.DecodeX86StringInstruction | src/fast_forward.rs:368-447 | succeeds exactly when the prefixes include REP and lead to a string opcode or use up the buffer, and reports the operand size, address size, length, flag and SI use of that instruction |
| StringInsn.IsStringInstructionAt | src/fast_forward.rs:549-571 | true exactly when readable memory at the address holds ignorable and REP prefixes, at least one REP, and then a string opcode |
| StringInsn.IsStringInstructionBefore | src/fast_forward.rs:573-598 | true exactly when a string opcode just before the address has only ignorable prefixes back to a REP prefix |
| StringInsn.ScannersAgree | src/fast_forward.rs:549-598 | whatever the forward scanner accepts, the backward scanner accepts from its end |
| StringInsn.ScannersFollowDecoder | src/fast_forward.rs:368-598 | whatever the decoder decodes by reaching an opcode, both scanners recognise, for every prefix mix |
| RepLoops.StepsRunToLimit | src/fast_forward.rs:268-287 | running to the breakpoint behind the instruction is single-stepping until the instruction is left |
| RepLoops.DoctoredRun | src/fast_forward.rs:268-297 | a run with a smaller counter performs exactly the iterations a run with the real counter would perform first |
| RepLoops.RunOutcome | src/fast_forward.rs:289-325 | a pass that ends early is the first one and stops at the flag exit; every other pass leaves the fast-forwarded state |
| RepLoops.RefinesSingleStepping | src/fast_forward.rs:156-325 | the fast-forwarded state is at the instruction with iterations left, and single-stepping reaches it if and only if the flag exit does not fall on the last permitted iteration; then it is the state after all permitted iterations, or just before the exit |
| FastForward.StringLoopRespects | src/fast_forward.rs:303-310 | MOVS, STOS and LODS never exit on a flag, and CMPS and SCAS never change memory |
| FastForward.StatesAvoided | src/fast_forward.rs:188-221 | within the bound from the avoided states, no state at the instruction is one of them |
| FastForward.WatchLimitIsFirstTouch | src/fast_forward.rs:455-496 | the limit for a watchpoint is the first iteration that touches it, in either direction, or there is none |
| FastForward.WatchBoundBelow | src/fast_forward.rs:236-253 | the bound over all watchpoints is at most the limit of each reported pointer and watchpoint |
| FastForward.PointersAdvance | src/fast_forward.rs:449-496 | without wraparound, the pointers of iteration i are where the watchpoint arithmetic expects them |
| FastForward.WatchedBytesUntouched | src/fast_forward.rs:236-253 | no iteration within the bound accesses a watched byte, for every instruction but LODS, also when the decoder reports a larger operand size than the real one |
| FastForward.WatchBoundIsTight | src/fast_forward.rs:236-253 | when watchpoints lower the bound, the first iteration that is not run would access a watched byte |
| FastForward.LodsUntouchedIff | src/fast_forward.rs:407-410 | in a fast-forwarded LODS loop no iteration within the bound reads a byte of the watchpoint if and only if the bound is within the limit of the source pointer |
| FastForward.LodsCrossesWatchpoint | src/fast_forward.rs:407-410 | a LODS loop that reads a watched byte within its bound |
| FastForward.FlagExitOnLastHappens | src/fast_forward.rs:303 | a CMPSB loop of three iterations whose flag exit goes unnoticed |
| FastForward.FlagExitOnLastIff | src/fast_forward.rs:303 | the flag exit falls on the last permitted iteration if and only if the instruction compares and, in the memory before the call, the last permitted element ends the comparison and none before it does |
| FastForward.BoundWithExit | src/fast_forward.rs:188-221 | adding the exit state to the avoided states makes the bound stop just before the exit |
| FastForward.BoundByStates | src/fast_forward.rs:180-221 | the loop over the states and the extra state computes the bound of all of them |
| FastForward.BoundIterationsForWatchpoint | src/fast_forward.rs:455-496 | lowers the iterations to the first touch of the watchpoint |
| FastForward.BoundByWatchpoints | src/fast_forward.rs:236-253 | the loop over the watchpoints computes the bound of all of them, on DI and, where reported, on SI |
| FastForward.Pass | src/fast_forward.rs:268-325 | one pass runs the loop with the doctored counter and either leaves the adjusted registers or resets them and returns the exit state |
| FastForward.FastForwardLoop | src/fast_forward.rs:153-326 | at most two passes leave the fast-forwarded state; the assertion that a rerun happens only once never fires |
| FastForward.NoStateMissed | src/fast_forward.rs:188-221 | no state the loop starts in or passes through is an avoided state |
| FastForward.StopIsAvoided | src/fast_forward.rs:188-221 | the state stopped in is not an avoided state, even after a flag exit on the last permitted iteration |
| FastForward.DecoderSees | src/fast_forward.rs:368-447 | for any prefixes, the length the decoder reports leads to the end of the instruction the bytes encode, and its flag and SI reports are those of that instruction |
| FastForward.DecoderCovers | src/fast_forward.rs:368-447 | for any prefixes the decoder reports at least the operand size of the processor |
| FastForward.DecoderDescribesIff | src/fast_forward.rs:390-445 | the decoder's operand size is the processor's if and only if the opcode is a byte form, there is no REX.W, or REX.W is the last prefix |
| FastForward.RexBeforeRepIsMisread | src/fast_forward.rs:390-445 | REX.W before REP MOVS: the processor moves four bytes at a time and the decoder says eight |
| FastForward.BoundMissesNothing | src/fast_forward.rs:188-253 | for the instruction that any bytes encode, the bound passes through and stops in no avoided state and, except for LODS, accesses no watched byte |
| FastForward.FastForwardThroughInstruction | src/fast_forward.rs:84-327 | every early return leaves the tracee as the single step left it; otherwise the instruction that the bytes at the instruction pointer encode is fast-forwarded, with the breakpoint where the decoder's length says, the status says so, no avoided state was missed or stopped in, and, except for LODS, no watched byte was accessed |
| Int64.ZeroExtendMeaning | src/gdb_expression.rs:387-395 | the mask of OP_zero_ext keeps the low n bits |
| Int64.SignBitMeaning | src/gdb_expression.rs:375-386 | the shift and mask of OP_ext pick the sign bit of the low n bits |
| Int64.ExtendMeaning | src/gdb_expression.rs:375-386 | the bit trick of OP_ext is sign extension of the low n bits |
| GdbExpression.RunSucceedsIff | src/gdb_expression.rs:100-130 | a run, of the bytecode machine or of any other step function, succeeds with v if and only if some number of steps below the budget reaches the end without a fault and with v on top of the stack |
| GdbExpression.BudgetMonotone | src/gdb_expression.rs:100-130 | a larger step budget never changes a success |
| GdbExpression.ExpressionState.Pop | src/gdb_expression.rs:171-178 | takes the top of the stack; an underflow sets the error flag and changes nothing else |
| GdbExpression.ExpressionState.Fetch | src/gdb_expression.rs:202-246 | reads a big-endian operand and advances, or sets the error flag when the code ends |
| GdbExpression.ExpressionState.LoadFrom | src/gdb_expression.rs:248-262 | replaces the address on top of the stack by the little-endian value there, or sets the error flag |
| GdbExpression.ExpressionState.StepBinary | src/gdb_expression.rs:276-373 | a binary operator takes b and then a, and pushes the wrapped 64-bit result; a zero divisor is an error |
| GdbExpression.ExpressionState.StepExtension | src/gdb_expression.rs:375-395 | OP_ext and OP_zero_ext extend the low n bits, for every n |
| GdbExpression.ExpressionState.StepStack | src/gdb_expression.rs:405-429 | dup and pick copy an entry, pop drops one, swap exchanges the top two and rot reverses the top three; a missing entry is an error |
| GdbExpression.ExpressionState.StepUnary | src/gdb_expression.rs:330-404 | negations and memory references, with the faults of a load |
| GdbExpression.ExpressionState.StepControl | src/gdb_expression.rs:430-486 | jumps, constants and registers, a register cut to the bytes it has |
| GdbExpression.ExpressionState.Step | src/gdb_expression.rs:271-495 | one step has exactly the effect of the step relation; a fault shows in the error flag and nothing recovers from it |
| GdbExpression.RunVariant | src/gdb_expression.rs:107-121 | the loop over one bytecode variant gives the verdict of a run with a budget of 10000 steps |
| GdbExpression.EvaluationSucceedsIff | src/gdb_expression.rs:100-130 | all variants together give v if and only if there is one and each of them reaches OP_end with v on top within the budget |
| GdbExpression.Evaluate | src/gdb_expression.rs:100-130 | the loop over the variants succeeds with v exactly when there is a variant and every one reaches OP_end with v on top within the budget |
| ExpressionCompiler.CodeComputes | src/gdb_expression.rs:271-495 | from any stack and with any budget, the code of a tree pushes its value after a known number of steps, or faults as the tree does |
| ExpressionCompiler.CompiledExpressionEvaluates | src/gdb_expression.rs:100-130 | code of a tree followed by OP_end evaluates to the value of the tree if and only if the budget covers its steps |
| ExpressionCompiler.RingValueIsExactModulo | src/gdb_expression.rs:276-289 | for trees of constants, additions, subtractions and multiplications that value is the exact integer result reduced to 64-bit two's complement |
| FdTable.SetFdKeepsCount | src/fd_table.rs:42-66 | the count of descriptors beyond the array stays the true count and never underflows |
| FdTable.MonitoredIsWanted | src/fd_table.rs:325-335 | the query over all tasks answers what the cache slot should hold, the last slot standing for all descriptors beyond |
| FdTable.SetMonitorSlot | src/fd_table.rs:274-318 | after a change each slot of each recorded array is right, or neither it nor what it should hold changed |
| FdTable.SetMonitorKeepsCaches | src/fd_table.rs:274-318 | adding, duplicating or closing in any table keeps every cache safe and keeps exact caches exact |
| FdTable.InitialArrayIsWanted | src/fd_table.rs:191-234 | the array written at preload time is exact |
| FdTable.ApplyKeepsCaches | src/fd_table.rs:126-164 | every operation keeps all caches safe, and keeps exact caches exact if and only if no fork copies a slot its own table does not account for and no exit or exec takes the last monitor of a slot away from remaining tasks |
| FdTable.LosesNothingIff | src/session/task/task_common.rs:1631-1636 | that condition holds exactly when no slot of any cache in use afterwards is lost |
| FdTable.CachesOverRuns | src/fd_table.rs:42-335 | over every run of operations on any number of tables, a monitored descriptor is always disabled, and the caches are exact all along if and only if no operation loses a monitor |
| FdTable.ForkExactIff | src/session/task/task_common.rs:1631-1636 | the cache of a forked address space is exact if and only if the parent's own table monitors all that its address space monitored |
| FdTable.LeaveExactIff | src/session/task/task_common.rs:1910-1912 | the cache stays exact on an exit or exec if and only if the remaining tasks monitor all that the leaving one did |
| FdTable.ForkCanLeaveStaleSlot | src/session/task/task_common.rs:1631-1636 | a fork whose cache disables a descriptor nobody monitors |
| FdTable.ExitCanLeaveStaleSlot | src/session/task/task_common.rs:1910-1912 | an exit after which the cache still disables a descriptor nobody monitors |
| FdTable.Session.IsFdMonitoredInAnyTask | src/fd_table.rs:325-335 | the loop over the tasks answers the query |
| FdTable.Session.UpdateSyscallbufFdsDisabled | src/fd_table.rs:274-318 | one pass in any order refreshes the slot in every address space that uses the table, and nothing else |
| FdTable.Session.AddMonitor | src/fd_table.rs:42-66 | monitors the descriptor, counts it if it is beyond the array, and refreshes the caches |
| FdTable.Session.DidDup | src/fd_table.rs:126-142 | the duplicate is monitored as the original is, or no longer monitored, with the count and caches kept |
| FdTable.Session.DidClose | src/fd_table.rs:144-152 | the descriptor is no longer monitored, with the count and caches kept |
| FdTable.Session.InitSyscallbufFdsDisabled | src/fd_table.rs:191-234 | writes the array of the address space from the descriptors of all its tasks |
| Templates.MatchIffEncoded | scripts/assembly_templates.py:180-223 | matching yields values exactly when they fit their fields and the buffer starts with the template filled with them: each of matching and substituting inverts the other |
| Templates.MergeChunks | scripts/assembly_templates.py:30-47 | merging keeps what a template stands for and leaves no empty and no adjacent raw chunks |
| Templates.RawInTemplateBytes | scripts/assembly_templates.py:52-59 | a raw chunk is found in the byte array at the sum of the sizes before it |
| Templates.Substitute | scripts/assembly_templates.py:203-223 | fills the start of the buffer with the template and the values and leaves the rest alone |
| Templates.Matchp | scripts/assembly_templates.py:180-201 | comparing and reading front to back gives the values of the match, or fails when there is none |
| AddressSpace.StartingAt | src/session/address_space.rs:1055-1059 | splits the sorted mappings into those that start before the address and the others |
| AddressSpace.MappingOf | src/session/address_space.rs:954-968 | finds a mapping exactly when one contains the address |
| AddressSpace.GapIsFree | src/session/address_space.rs:1874-1902 | the gap found lies behind the starting mapping and overlaps none |
| AddressSpace.FindFreeMemory | src/session/address_space.rs:1874-1902 | the loop finds the first such gap |
| ExtendedJumps.FirstFitIsFirst | src/monkey_patcher.rs:770-779 | the page found is the first one within 2 GB of the site that has room, and none is found exactly when there is none |
| ExtendedJumps.NewPageIsFree | src/monkey_patcher.rs:782-792 | a new page and a guard page on each side of it overlap no mapping |
| ExtendedJumps.AllocateKeepsValid | src/monkey_patcher.rs:765-857 | an allocation adds one block, disjoint from all others, inside its page and within a signed 32-bit offset of its site, or changes nothing |
| ExtendedJumps.BlocksOverRuns | src/monkey_patcher.rs:765-857 | over any run of allocations of mixed sizes and changes of other mappings, all blocks stay disjoint, in their pages and in reach, and none is taken back |
| ExtendedJumps.StubsApart | src/monkey_patcher.rs:914-916 | recorded stubs do not overlap |
| ExtendedJumps.IsJumpStubInstruction | src/monkey_patcher.rs:478-485 | one query of the ordered map answers true exactly when some recorded stub contains the address |
| SyscallStubs.StubDecodes | scripts/assembly_templates.py:104-154 | the bytes of a filled-in stub are its instructions, each at its offset, on both architectures |
| StubMachine.InsnUnique | scripts/assembly_templates.py:104-154 | the bytes at an address are those of at most one instruction |
| StubMachine.ProcessorIsDeterministic | scripts/assembly_templates.py:104-154 | so the processor has one next step at most |
| StubExecution.RelativeJump | src/monkey_patcher.rs:738-744 | a truncated offset reaches the right target modulo 2^32 |
| StubExecution.StubStepExecutes | src/monkey_patcher.rs:731-760 | stepping through a stub is what the processor does with its bytes in memory, as long as no step writes over them |
| StubExecution.StubReachesHook | src/monkey_patcher.rs:731-760 | from the first byte of a stub some number of steps leads the processor to the hook and nowhere else, with the return address on the stack and behind it the stack pointer the stub found, on the alternate stack at the outermost level and below the interrupted stack otherwise; the nesting level is one higher and nothing else outside the thread's locals has changed |
| StubExecution.SiteJumps | src/monkey_patcher.rs:918-928 | the jump at the site lands on the stub |
| StubExecution.SiteReachesHook | src/monkey_patcher.rs:877-944 | the same from the patched site |
| MonkeyPatching.InstalledRedirects | src/monkey_patcher.rs:877-944 | a processor at a patched site, with room on its stack, runs through the stub to the hook, which returns to the first byte behind the replaced instructions; jump and NOPs cover exactly those |
| MonkeyPatching.AllocateGrows | src/monkey_patcher.rs:765-857 | no byte mapped outside the stub pages ever joins them |
| MonkeyPatching.PatchKeepsPatches | src/monkey_patcher.rs:877-944 | one more patch leaves every earlier patch in place |
| MonkeyPatching.RunKeepsReady | src/monkey_patcher.rs:877-944 | every run of patches and other changes of memory and mappings keeps pages, blocks, stub index and patches consistent |
| MonkeyPatching.PatchesOverRuns | src/monkey_patcher.rs:877-944 | over any run every site ever patched keeps leading to its own hook and back |
| MonkeyPatching.MonkeyPatcher.AllocateExtendedJump | src/monkey_patcher.rs:765-857 | first fit, or a new page behind the mapping of the site, or failure when that is out of reach |
| MonkeyPatching.MonkeyPatcher.WritePatch | src/monkey_patcher.rs:900-943 | writes stub, jump and NOPs and records the stub |
| MonkeyPatching.MonkeyPatcher.PatchSyscallWithHook | src/monkey_patcher.rs:877-944 | patches the site, or fails and changes nothing; the mapping behind the jump is needed only when no page fits |
| XSave.ClearBitMeaning | src/extra_registers.rs:500 | clearing a feature bit leaves all others |
| XSave.CopyFeature | src/extra_registers.rs:193-239 | copying one feature keeps those copied before and all zeros elsewhere |
| XSave.SameConversion | src/extra_registers.rs:131-243 | legacy area, header, features in use and zeros elsewhere determine the converted area |
| XSave.ConversionKeepsFeatures | src/extra_registers.rs:485-505 | the converted area uses the same features, after the all-zero PKRU is dropped |
| XSave.ConversionIsIdempotent | src/extra_registers.rs:103-243 | a converted area is accepted in the native layout and converting it again changes nothing |
| XSave.ExtraRegisters.AllZeros | src/extra_registers.rs:507-515 | true exactly when all bytes are zero |
| XSave.ExtraRegisters.UsedFeatures | src/extra_registers.rs:485-505 | the header's features, without PKRU when its region is inside and all zero |
| XSave.ExtraRegisters.CopyFeatures | src/extra_registers.rs:193-239 | copies every feature in use, or fails exactly when one has no region, a region outside, or another size |
| XSave.ExtraRegisters.SetToRawData | src/extra_registers.rs:103-243 | succeeds exactly when lengths, supported features and regions allow it, and then holds the legacy area, the normalised header, every feature in use and zeros elsewhere |
| GdbPacket.UnescapeInvertsEscape | src/gdb_connection.rs:1389-1410 | unescaping undoes escaping, and escaped data contains no byte that frames a packet |
| GdbPacket.ChecksumIsSum | src/gdb_connection.rs:1376-1387 | the wrapping additions give the sum of the bytes modulo 256 |
| GdbPacket.StreamRoundTrip | src/gdb_connection.rs:1443-1469 | reading any stream of packets with '#'-free prefixes, interrupts and noise gives exactly the packets and interrupts, in order |
| GdbPacket.PayloadRoundTrip | src/gdb_connection.rs:2832-2846 | the prefix and the data of a packet are recovered from its body |
| GdbPacket.ReadPacketRightIff | src/gdb_connection.rs:1477-1533 | the recorded end of a packet is the one processing asserts if and only if the '#' is buffered as soon as the start is, or it is an interrupt |
| GdbPacket.SplitPacketMisread | src/gdb_connection.rs:1502-1517 | a packet split over two reads that gets a wrong end |
| GdbPacket.XferReply | src/gdb_connection.rs:1427-1438 | a reply decodes to the bytes asked for, marked as last exactly when they reach the end of the object |
| GdbPacket.TransferReassembles | src/gdb_connection.rs:1427-1438 | a client that starts at 0 and asks for any positive lengths ends with the whole object |
| GdbPacket.GdbConnection.WritePacketBytes | src/gdb_connection.rs:1376-1387 | appends '$', the data, '#' and the checksum in two hex digits |
| GdbPacket.GdbConnection.WriteBinaryPacket | src/gdb_connection.rs:1389-1411 | appends the packet of the prefix and the escaped data |
| GdbPacket.GdbConnection.WriteXferResponse | src/gdb_connection.rs:1427-1438 | appends the packet of the reply, including the error reply |
| GdbPacket.GdbConnection.SkipToPacketStart | src/gdb_connection.rs:1443-1469 | drops everything before the first packet start or interrupt and tells whether there is one |
| GdbPacket.GdbConnection.ReadPacket | src/gdb_connection.rs:1477-1533 | waits for a start and an end over any sequence of reads, or until the connection closes |
| GdbPacket.GdbConnection.ProcessPacket | src/gdb_connection.rs:2222-2493 | takes the item at the start of the buffer and erases it through the '#' |
| GdbPacket.GdbConnection.ReadBinaryData | src/gdb_connection.rs:2832-2846 | unescapes a payload, or stops at a trailing escape |
| RemoteSyscalls.FixedStackIsUsable | src/auto_remote_syscalls.rs:461-505 | after a fix the byte below the stack pointer is in a usable mapping, or, when there is none, at the end of the scratch page |
| RemoteSyscalls.SetupUndone | src/auto_remote_syscalls.rs:939-992 | switching paths does not change what undoing the remote would give |
| RemoteSyscalls.MemRestorable | src/auto_remote_syscalls.rs:251-273 | after any body, dropping a block finds the stack pointer where it left it and puts the saved bytes back, also when the contents could not be written |
| RemoteSyscalls.ExecRestorable | src/auto_remote_syscalls.rs:251-273 | every well-nested program leaves a state from which undoing changes reserved bytes only |
| RemoteSyscalls.RemoteSyscallsRestore | src/auto_remote_syscalls.rs:524-593 | preparing, with or without a scratch page, running any well-nested program of syscalls, blocks and further remotes, and restoring leaves every register, every byte of memory, all mappings and the wait status as they were |
| RemoteSyscalls.SwitchInBlockRestoresIff | src/auto_remote_syscalls.rs:939-992 | for a block anywhere and a path switch during its life, the tracee is restored if and only if the singlestep site already held the instruction where the block meets it and contents that meet the traced site were there already or make it the instruction |
| RemoteSyscalls.BlockOverSiteIsNotRestored | src/auto_remote_syscalls.rs:939-992 | in a tracee that has its stack in zeroed memory of its own over the rd page, a two-byte block over the singlestep entry point leaves a syscall instruction there |
| RemoteSyscalls.AutoRemoteSyscalls.constructor | src/auto_remote_syscalls.rs:413-451 | saves the registers and the wait status, sets up a path and, with memory parameters, fixes the stack pointer |
| RemoteSyscalls.AutoRemoteSyscalls.SetupPath | src/auto_remote_syscalls.rs:939-992 | restores the old site and puts the syscall instruction at the new one, saving what it replaces |
| RemoteSyscalls.AutoRemoteSyscalls.MaybeFixStackPointer | src/auto_remote_syscalls.rs:461-505 | keeps a stack pointer with room in a usable mapping, else moves it to the end of the first usable mapping or of a new scratch page |
| RemoteSyscalls.AutoRemoteSyscalls.Syscall | src/auto_remote_syscalls.rs:777-797 | switches to the traced path first when a SIGTRAP handler is about to be set |
| RemoteSyscalls.AutoRemoteSyscalls.RestoreStateTo | src/auto_remote_syscalls.rs:524-593 | unmaps the scratch page and puts back the site, all registers and the wait status, on its own task or another |
| RemoteSyscalls.AutoRestoreMem.constructor | src/auto_remote_syscalls.rs:329-366 | moves the stack pointer down, saves the bytes there and writes the given ones; without an address when that fails |
| RemoteSyscalls.AutoRestoreMem.Drop | src/auto_remote_syscalls.rs:251-273 | writes the saved bytes back if there is an address, and moves the stack pointer up |
| RemoteSyscalls.Perform | src/auto_remote_syscalls.rs:251-273 | runs any well-nested program with the objects; the assertions of each block's constructor and drop hold |
| RemoteSyscalls.MakeRemoteSyscalls | src/auto_remote_syscalls.rs:413-593 | from construction to destruction the tracee's registers, memory and wait status are unchanged |
| GrowMap.StepIsFreeIff | src/record_signal.rs:413-431 | the two queries hold exactly when nothing is mapped from the page below the candidate start up to the mapping |
| GrowMap.GrowthIsSafe | src/record_signal.rs:346-432 | with or without the 64K step, the range is page-aligned, holds the faulting page, overlaps no mapping, has no mapping on the page below and respects the stack limit |
| GrowMap.GrownIsValid | src/record_signal.rs:437-465 | the grown address space is sorted, disjoint and aligned, keeps every mapping and maps the faulting address |
| GrowMap.RecordTask.ChooseStart | src/record_signal.rs:409-432 | takes the 64K step exactly when it and the page below are free |
| GrowMap.RecordTask.TryGrowMap | src/record_signal.rs:339-465 | grows exactly when the address is unmapped, the next mapping grows down, the guard page is free and the limit allows it; otherwise nothing changes |

## Left out

- Ptrace, sockets, polling, perf counters, ELF files, trace files and the command line are input and output; only their effects on the modelled state appear.
- The kernel's stacking of several seccomp filters and its precedence between their actions.
- The `trace` builder of `src/seccomp_bpf.rs` pushes one instruction, and `at_x86_string_instruction` wraps the scanner modelled here.
- FastForwardThroughInstruction: does not cover an instruction buffer made only of prefixes, where the decoder ends without an opcode, nor an address-size prefix, on which the source asserts; the single step before it is given by its outcome. The address behind the instruction is taken modulo 2^64, as the source does, so a 32-bit tracee's instruction must not reach over the end of its address space.
- WatchedBytesUntouched: assumes pointers that do not wrap around the address space within the bound, as the watchpoint arithmetic of the source does. The same goes for the watched bytes in FastForwardThroughInstruction.
- GdbExpression: opcodes without an implementation take the error branch; a signed remainder of the minimum value by -1 is a panic, as in the source.
- Emit: the compiler from expression trees belongs to this model; the source receives its bytecode from gdb. It shows that every tree has code the theorems apply to.
- FdTable: what a file monitor does with a read, write or ioctl, and descriptors closed on exec.
- MonkeyPatching: matching a hook against the instructions after a syscall, patching at other places (vdso, dynamic linker), and the zero bytes of a fresh page; a site is patched once and lies outside the stub pages.
- StubReachesHook: memory is there where the stub reads and writes; the stack the hook gets has room for two words, apart from the stub and the thread's locals. The hook itself, which undoes the switch, is not part of this model. The processor knows only the instruction forms that occur in stubs.
- AllocateExtendedJump: a fresh page is recorded as a mapping of its own, not merged with its neighbours.
- SetToRawData: what the registers hold after a refused conversion is not stated, since callers discard them.
- ProcessPacket: what the requests mean; only framing, the split into request and payload, and erasing are modelled.
- RemoteSyscallsRestore: a dying tracee is not modelled; writes fail only as contents of a block, and then as a whole. A block is clear of the syscall sites or sees no path switch; SwitchInBlockRestoresIff says what happens otherwise. The scratch page appears and disappears as a whole where nothing was mapped; the mmap and munmap calls of the remotes that make it so are not spelled out.
- Syscall: waiting for the syscall to finish and signals in between; the result is a parameter, and the kernel writes only to reserved blocks.
- TryGrowMap: the new mapping is not merged with the one it extends, and the stack limit does not exceed the end of that mapping, which the source subtracts it from.
- Register accessors, floating-point register formats and `xsave_register_data` of `src/extra_registers.rs`: tables without an algorithm.
