# microx in Dafny

microx runs x86 and x86-64 instructions one at a time against a state that its user owns: registers, flags,
memory and the FPU are read and written through callbacks. This project models three connected parts of it and
proves what they promise over whole runs.

**The micro-executor** (`microx/Executor.cpp`). Module `Isa` is the reference: what one instruction does to the user's
state, with no cache and no staging, and what runs of any length come to (`Step`, `Run`). A step plans its updates of
memory, FPU, flags and registers as a list in the order of writing, and is done; or it is rejected before it writes
anything; or it is torn, at the first update that the user refuses, with everything before it written. Class
`MicroExecutor.Executor` has the executor's own form: a register cache with its used and modified sets, staged memory
operands, flags, a stack pointer alias, and loops over them that read everything, emulate the instruction or rename
and run it natively, and write back. Its memory is a `PagedMemory.Process`, which it reaches by requests alone.
`Execute` is proved to compute `Isa.Run`, torn steps included, whatever is left over in the cache, and to make the
calls of its steps in order. On runs of the reference the following are proved: REP MOVS and STOS as memmove and fill,
REPE CMPS as lexicographic comparison (and the branches taken on it), REPNE SCAS as search (and the string length
idiom), the nesting of CALL, RET, PUSH and POP, what LOOP does, page protection, that bytes that may not be read make no
difference, and which bytes of registers a step leaves alone. On single steps: what the host is given and what is taken
from it, where operands lie, what each conditional jump decides, and why a step stops.

**Paged memory** (`microx/__init__.py`). Classes `PagedMemory.MemoryMap`, `Memory` and `Process` keep the page
table, its default maps, the fast path for sized accesses and the path byte by byte. They refine `FlatMemory`, the
memory that the executor's reference is stated over.

**Input discovery** (`godefroid/policies.py`, `godefroid/policy_map.py`). Classes `InputPolicy.InputMemoryPolicy` and
`PolicyMap.PolicyMemoryMap` are proved against functions on their state; about runs of these it is proved that the
pointers issued are disjoint, which one each read is given and when a run fails, that reported areas are merged without
loss, exactly which addresses become inputs (`KnownInputs`), and exactly which bytes that were written are reported: not
all, since a shorter store replaces an earlier one with the same start (`Outputs`).

Every file is one module. `Bits`, `FlatMemory`, `Machine`, `Updates` and `Trace` hold the data: bounded integers, the
flat memory, machine state and decoded instructions, what a step writes back, and the calls that it makes, which
`Requests` lists. `Locality`, `CacheArithmetic`, `StackAlias` and `StepResults` connect the executor with the
reference. `Examples`, `StringExamples` and `PagedExample` have small programs that meet the hypotheses of the run
theorems and of `Execute`. The instruction decoder, the encoder and the host processor are parameters
(`Machine.Machine`): a decoded instruction is a value that gives form, operands, widths and flag sets,
`Machine.Decoded` says what the executor relies on XED to report, and native execution is an unknown function of
operand values, flags and the FPU that may instead raise a signal. `StackAlias.OperandFunctional` says that it is a
function of these: renaming the stack pointer to a register that is not used changes neither whether an instruction
can be encoded nor what it computes. References to the SDM are to the Intel 64 and IA-32 Architectures Software
Developer's Manual, Volume 1, and for single instructions Volume 2.

A comment in the source (`microx/Executor.cpp:2217-2219`) has it that a failing instruction leaves no side effects on
memory, if registers can always be written. `TornSteps` states exactly when a step fails after it has begun to
write, and what memory it leaves; `Examples.TornCall` is a call that fails and leaves its return address.

## Model

| member | source | states |
|---|---|---|
| MicroExecutor.Executor.Execute | microx/Executor.cpp:2028-2246 | n instructions leave the user's state, and return the status, exactly as `Isa.Run` says, for any leftover cache, staged operands and host flags, also when a write is refused halfway; on success all n were executed; the calls of step k are exactly, one by one, those of the reference's step k (`Requests.StepCalls`), with no write of any kind in a step that is rejected early; no byte of the pages that may not be written changes, and no announced memory write is refused |
| MicroExecutor.Executor.ExecuteOne | microx/Executor.cpp:2042-2243 | status, state and calls of one step are those of the reference's plan for it (`StepResults.Came`): nothing written if it is rejected, and otherwise its updates up to the first refused |
| MicroExecutor.Executor.ExecuteDecoded | microx/Executor.cpp:2087-2242 | the same of a decoded instruction, over the executor's phases in their order |
| MicroExecutor.Executor.Init | microx/Executor.cpp:1972-2018 | initialised from then on, with the cache cleared once; nothing changes when it already was or when the host refuses |
| MicroExecutor.Executor.ReadRegister | microx/Executor.cpp:257-302 | each widest register is requested at most once a step, and the cache then holds the user's value; a register that is needed and refused fails the step |
| MicroExecutor.Executor.ReadRegistersMemOp | microx/Executor.cpp:305-310 | the base and index of a memory operand are loaded, or refused |
| MicroExecutor.Executor.ReadRegisters | microx/Executor.cpp:315-392 | succeeds exactly when no register the instruction names is refused; then all of them are loaded, and exactly the written operands are marked modified |
| MicroExecutor.Executor.ReadGPR | microx/Executor.cpp:397-422 | the alias's bits of the 64-bit storage, which in 32-bit mode depend on its low half alone |
| MicroExecutor.Executor.WriteGPR | microx/Executor.cpp:426-457 | a 32-bit write clears the upper half, narrower writes keep everything outside the alias; no other register changes |
| MicroExecutor.Executor.ReadFlags | microx/Executor.cpp:1468-1512 | succeeds exactly when no flag the instruction depends on is refused; those flags are then the user's and the flags to write back are the written set |
| MicroExecutor.Executor.ComputeAddress | microx/Executor.cpp:563-670 | the address, added up with 64-bit wrap-around and masked to the address width, is the reference's, which `Addresses` states in numbers |
| MicroExecutor.Executor.ReadMemoryOperand | microx/Executor.cpp:541-681 | succeeds exactly when every byte of the operand permits what is announced for it, with writability among it for a written operand; the staged data are then the operand's |
| MicroExecutor.Executor.ReadMemory | microx/Executor.cpp:684-709 | stages all operands of the instruction, and forgets what was staged before |
| MicroExecutor.Executor.RepeatString | microx/Executor.cpp:873-907 | one iteration a step: the count is lowered, and the program counter stays while there is more to do |
| MicroExecutor.Executor.EmulateTransfer | microx/Executor.cpp:1147-1176 | CALL and RET stage the return address, move the stack pointer and pick the target as the reference does |
| MicroExecutor.Executor.EmulatePushPop | microx/Executor.cpp:1278-1303 | PUSH, of immediates too, and POP stage the value or load it, and move the stack pointer, as the reference does |
| MicroExecutor.Executor.EmulateJump | microx/Executor.cpp:983-1077 | jumps go to the target exactly when the reference's do, which `Branches` states in numbers |
| MicroExecutor.Executor.EmulateLoop | microx/Executor.cpp:1079-1098 | the count is lowered modulo the address width, and the loop goes on when the count before was not zero and ZF is as the form asks |
| MicroExecutor.Executor.Emulate | microx/Executor.cpp:910-1387 | the cache after emulation is the reference's outcome on the cache before; what is refused or left to the host changes nothing |
| MicroExecutor.Executor.CreateStackPointerAlias | microx/Executor.cpp:1569-1602 | the first of RAX, RCX, RDX and RBX not used takes the stack pointer; every used register reads as before through the alias |
| MicroExecutor.Executor.EncodeInstruction | microx/Executor.cpp:1605-1716 | succeeds exactly when the instruction can be encoded and an alias is free if one is needed; the operands are then the renamed ones |
| MicroExecutor.Executor.ExecuteNative | microx/Executor.cpp:1827-1917 | native execution of the renamed instruction on the cache has the outcome of the original on the user's operand values |
| NativeSteps.NativeStep | microx/Executor.cpp:2152-2215 | the host is given the user's own operand values, flags and FPU; after a step that is done, each written flag is as the host left it and each other one as it was, the FPU is the host's if it is used, and the program counter is behind the instruction |
| NativeSteps.NativeMemory | microx/Executor.cpp:713-723 | a written memory operand holds what the host left of it, at base + index * scale + displacement, and no other byte changes |
| NativeSteps.NativeRegister | microx/Executor.cpp:1877-1917 | a written register operand reads as the host's result, truncated to its width, if no later operand writes the same register |
| NativeSteps.NativeStops | microx/Executor.cpp:2133-2215 | it stops if the instruction cannot be encoded, if it names the stack pointer and uses RAX, RCX, RDX and RBX, or with the status of the signal that the host raises; and is done if the host finishes |
| NativeSteps.ArrayElement | microx/Executor.cpp:2020-2025 | a load or store through base, index and scale is of the k-th element of an array |
| HostCompare.CompareAndJump | microx/Executor.cpp:1877-1878 | a comparison of registers by the host, at any width, and any conditional jump behind it take two steps and branch exactly if the user's values are in the relation that the jump stands for |
| MicroExecutor.Executor.WriteMemory | microx/Executor.cpp:713-723 | each staged operand marked as written goes to the memory at its address, and none other; after its operands were read as announced this cannot fail |
| MicroExecutor.Executor.WriteFlags | microx/Executor.cpp:1525-1550 | exactly the flags to write back become the cached ones, in the source's order, up to the first that is refused, which fails the step with those before it written |
| MicroExecutor.Executor.WriteRegisters | microx/Executor.cpp:461-496 | exactly the registers both used and modified are written, in index order, and then the program counter, up to the first that is refused; the stack pointer is copied back from its alias, which is not itself written |
| MicroExecutor.Executor.CommitStep | microx/Executor.cpp:2217-2242 | memory, the FPU, flags, registers and the program counter are written in this order, with the values of the reference's outcome, up to the first that is refused |
| MicroExecutor.Executor.FetchInstruction | microx/Executor.cpp:2056-2082 | the bytes fetched are the longest readable and executable run of at most fifteen |
| FetchedBytes.StepFetches | microx/Executor.cpp:2056-2085 | a step has decoded the longest run, of up to fifteen, of readable and executable bytes at the program counter; it stops for want of an instruction exactly if the first byte is not such, does not decode bytes that are not, and stops before all that if the program counter is refused |
| FetchedBytes.UnreadableUnseen | microx/Executor.cpp:541-681 | a step does not depend on what bytes hold that may not be read: status, registers, flags and FPU are the same, and each byte is the same afterwards or left alone; provided that what an instruction uses is reported as read, and the host does not look at what it only writes, which it is handed all the same |
| FetchedBytes.RunUnseen | microx/Executor.cpp:2042-2049 | nor does any run, of any length, completed or not |
| Refusals.StopsFor | microx/Executor.cpp:2087-2140 | why a step stops, in this order: an unsupported feature, a refused flag that is read or may be left alone, a refused register, base or index, the FPU, or a byte of an operand that is not mapped or permits not what is done with it; and for none of these, if it is not left to the host, only a far transfer or PUSHA, POPA or ENTER |
| ExecutorRuns.LeftoversUnseen | microx/Executor.cpp:2042-2049 | two executors with equal user states, on separate memories, but any leftovers end with equal statuses and states, and make the same calls, whatever their user refuses |
| ExecutorRuns.InTwoParts | microx/Executor.cpp:2042-2049 | executing k and then, if they succeed, n instructions is executing k + n: same state, count and status; over both no byte of the pages that may not be written changes |
| ExecutorRuns.RunKeepsFit | microx/Executor.cpp:743-763 | in every run, registers keep to the width of the mode |
| Isa.RejectedEarly | microx/Executor.cpp:2087-2242 | a step that is rejected has a status that is decided before anything is written; one that is torn, the status of a write |
| Updates.ApplyAppend | microx/Executor.cpp:2217-2242 | writing two lists of updates one after the other: the second starts where the first is done, and is not begun if the first was refused |
| Updates.LateApplied | microx/Executor.cpp:2232-2242 | when none of them is refused, flags, registers and the program counter become those written, and no other flag or register changes |
| TornSteps.TornAt | microx/Executor.cpp:2217-2242 | a torn step has written exactly the updates before one that is refused, and has attempted no more; its status is that one's |
| TornSteps.TornExactly | microx/Executor.cpp:2217-2219 | a step that comes to its writes fails there if and only if the user refuses the program counter, a register that goes back, a written flag, or the FPU when it is used |
| TornSteps.TornMemory | microx/Executor.cpp:2217-2219 | such a step leaves memory just as it would have been had nothing been refused |
| WriteRefusals.TornFor | microx/Executor.cpp:2217-2242 | of a decoded instruction, in terms of its operands: a step that comes to its writes is torn if and only if the user refuses the FPU that it uses, a flag that it writes, or a register that goes back (a written operand, a string pointer unless a repeated instruction finds its count at zero, or the program counter); its status is that of the FPU, or else of a flag, or else of a register |
| WriteRefusals.PlanContents | microx/Executor.cpp:461-496 | exactly those flags, registers and FPU are among the updates of a step |
| WriteRefusals.PlanSorted | microx/Executor.cpp:1525-1550 | flags are written in the order of EFLAGS and registers by number, each once |
| Isa.RunAppend | microx/Executor.cpp:2042-2049 | a run of k + n is a run of k and then one of n from where it ended |
| Isa.RunStops | microx/Executor.cpp:2042-2049 | a run that stopped has the same result however many more instructions are asked for |
| Locality.TransformLocal | microx/Executor.cpp:910-1387 | the outcome of any instruction depends only on the registers it names, the flags it reads and its operands |
| Locality.RegsFrame | microx/Executor.cpp:461-496 | a register changes only if it is a written operand or a string pointer that moved |
| Locality.FlagsFrame | microx/Executor.cpp:1525-1550 | a flag changes only if it is in the written set |
| RegisterFrame.PutLane | microx/Executor.cpp:426-457 | in either mode, a write through any alias changes the bytes of the alias, clears the upper half for a 32-bit one, and leaves every other byte of every register |
| RegisterFrame.ResultsLane | microx/Executor.cpp:426-457 | any mix of written operands leaves each byte that none of them touches |
| RegisterFrame.BytesKept | microx/Executor.cpp:461-496 | a byte of a register that no written operand touches, and that no string or stack pointer move touches, goes back exactly as it was read, for every instruction, in either mode, also in a torn step |
| Locality.WriteBackAgrees | microx/Executor.cpp:461-496 | a cache that agrees with the reference on the registers used and the flags that count writes back what the reference writes back |
| Trace.PlanInOrder | microx/Executor.cpp:2217-2242 | every step's updates are memory, the FPU, flags, registers, in this order, and the program counter once, last |
| Trace.CallsInOrder | microx/Executor.cpp:2051-2242 | every successful step's calls: all reads before all writes, no register read twice, writes in order, the program counter written once and last, and memory written only where a write was announced when it was read |
| Requests.CallsAreTrace | microx/Executor.cpp:2051-2242 | what is said of the calls of a step in `Trace` holds of `Requests.StepCalls`: the sequence of requests, each register once at its first mention, up to the first that is refused, and then the writes |
| RequestOrder.ReadsPhased | microx/Executor.cpp:2051-2140 | every step, also one that is refused something, asks for the program counter, code, flags, registers of addresses, registers only read, registers written, the FPU and memory operands, in this order |
| RequestOrder.ReadsMeant | microx/Executor.cpp:257-392 | each register is announced as what it is: base, index, read operand or written one |
| RequestOrder.InstAsks | microx/Executor.cpp:2092-2140 | of what an instruction asks for, only the last can have been refused |
| RequestOrder.CodeAsked | microx/Executor.cpp:2056-2077 | code is asked for at fifteen bytes, and at one less each time that it is refused |
| Locality.WriteBackIsCommit | microx/Executor.cpp:2217-2242 | if none of it is refused, writing back only what was modified gives the same state as writing back everything |
| StackAlias.RenamingPreserves | microx/Executor.cpp:1569-1616 | for every native instruction with an alias free: the renamed one reads the same values and, once the alias is copied back, leaves all registers used, and the stack pointer, as the original; it does not mention the stack pointer |
| SubRegisters.EveryLane | microx/Executor.cpp:426-457 | after any list of writes through any aliases (SDM section 3.4.1.1), each byte of each register is what the last write to touch it put there |
| SubRegisters.AliasAfterWrites | microx/Executor.cpp:397-457 | reading any alias after any list of writes puts together the last bytes written to it |
| SubRegisters.WritesCommute | microx/Executor.cpp:433-457 | writes through AL and AH, and to different registers, commute |
| SubRegisters.SliceIsLanes | microx/Executor.cpp:403-422 | an alias is its byte lanes, little-endian |
| Protection.StepProtects | microx/Executor.cpp:649-656 | no step, done or torn, changes a byte that may not be written, or any permission; and none is torn by a memory write |
| Protection.RunProtects | microx/Executor.cpp:679-723 | nor does any run of any length, completed or not |
| StringWalk.ZeroCount | microx/Executor.cpp:873-907 | a repeated string instruction with count zero only moves the program counter: flags are unchanged, and the memory operand goes back as it was |
| PlainStrings.MovsOnce | microx/Executor.cpp:845-856 | a MOVS without prefix copies one element, moves both pointers by it, up or down by DF, and goes on behind itself; nothing else changes |
| PlainStrings.StosOnce | microx/Executor.cpp:815-822 | a STOS without prefix stores the accumulator's part, moves RDI and goes on behind itself |
| PlainStrings.LodsOnce | microx/Executor.cpp:836-843 | a LODS without prefix loads the element at RSI into the accumulator's part, moves RSI and goes on behind itself |
| PlainStrings.ScasOnce | microx/Executor.cpp:824-834 | a SCAS without prefix leaves the flags of comparing the accumulator's part with the element at RDI, moves RDI and goes on behind itself |
| PlainStrings.CmpsOnce | microx/Executor.cpp:858-871 | a CMPS without prefix leaves the flags of comparing the elements at RSI and RDI, moves both and goes on behind itself |
| LoadRuns.StringLoaded | microx/Executor.cpp:836-907 | REP LODS from a count c > 0 takes c steps: the accumulator's part then holds the last of the c elements, RSI is moved by c of them, the count is 0, and memory and flags are unchanged |
| StoreRuns.StoreRun | microx/Executor.cpp:845-856 | k iterations of REP MOVS or STOS take k steps and make memory the sequential copy of k elements; an element that is refused stops the run there, with nothing of it done |
| Memmove.StoredMemory | microx/Executor.cpp:815-856 | if the ranges do not wrap, and are disjoint or overlap in the safe direction, the sequential copy is a memmove of the original contents, and STOS a fill; all other bytes are unchanged |
| Memmove.StringStored | microx/Executor.cpp:897-907 | from a count c > 0: exactly c steps, count 0, pointers moved by c elements modulo the address width, the program counter past the instruction for the first time, and memory as after memmove or fill |
| Compare.CompareMeans | microx/Executor.cpp:789-813 | at every width, after a comparison ZF is equality, CF unsigned less-than, AF the borrow out of bit 3 and PF even parity of the low byte of the difference (SDM section 3.4.3.1) |
| Compare.BranchDecides | microx/Executor.cpp:983-1069 | JZ, JNZ, JB, JNB, JBE and JNBE then decide =, !=, <, >=, <= and > on unsigned operands |
| Compare.OppositeBranches | microx/Executor.cpp:950-1077 | of each pair of opposite conditional jumps exactly one is taken, for all sixteen, and both read the same flags |
| Branches.BranchStep | microx/Executor.cpp:949-1077 | with the flags of a difference l - r, of operands of any width, one step of each of the sixteen conditional jumps goes to its target exactly if l and r are in the relation it stands for: as unsigned numbers, as signed ones, or by the sign, overflow or parity of the difference; it changes nothing else |
| Branches.JccStep | microx/Executor.cpp:949-1077 | with any flags, it does so exactly as the SDM's condition codes have it (appendix B of volume 1) |
| Branches.ComparedIfShifted | microx/Executor.cpp:800-813 | the flags of an emulated comparison, SF and OF among them, are those of the difference, if the source's shift gives the operand's top bit |
| Branches.JrcxzStep | microx/Executor.cpp:1100-1116 | the jump is taken exactly if the named part of the count is zero |
| Branches.JmpRelStep | microx/Executor.cpp:1141-1145 | a relative jump changes the program counter only, by its displacement from behind it |
| Branches.JmpRegStep | microx/Executor.cpp:1137-1139 | a jump through a register continues at its value, modulo the address width |
| Branches.XbeginStep | microx/Executor.cpp:1118-1125 | a transaction fails at once: RAX is 8, and execution continues at the fallback |
| Addresses.ElementAddress | microx/Executor.cpp:570-573 | with the scale an element's size, base and index name element k of an array at p: its address is p + k times the size |
| Addresses.LeaStep | microx/Executor.cpp:946-948 | LEA leaves base + index * scale + displacement, and the instruction's length if relative to the program counter, modulo the address width and the destination's, and changes no other register |
| Addresses.JmpMemStep | microx/Executor.cpp:1133-1135 | a jump through memory continues at the value stored at its operand's address |
| Addresses.TableJump | microx/Executor.cpp:1133-1135 | through a table: at its k-th entry |
| Compare.ParityIsOfOnes | microx/Executor.cpp:789-798 | the exclusive or of the shifted byte is the parity of its set bits |
| Compare.BorrowOutOfBit3 | microx/Executor.cpp:801-813 | bit 4 of the exclusive or of operands and difference is the borrow out of bit 3 |
| Loops.LoopAgrees | microx/Executor.cpp:1079-1098 | the SDM's LOOP, LOOPE and LOOPNE lower the count first: where ZF lets the loop go on, the source branches as they do if and only if the count is neither 0 nor 1 |
| Loops.LoopStep | microx/Executor.cpp:1079-1098 | one step of a loop instruction: the count one lower, modulo the address width, the branch by the count before and by ZF as LOOP, LOOPE and LOOPNE ask for it, and nothing else |
| Loops.LoopRun | microx/Executor.cpp:1079-1098 | a loop to itself from any count c is executed c + 1 times and leaves a count of all ones |
| Loops.PushImmediateAgrees | microx/Executor.cpp:1288-1292 | the low half of the immediate that is pushed is the sign-extended one of the SDM if and only if the operand has at most four bytes or, of 32-bit immediates, it is not negative |
| CompareRuns.CompareRun | microx/Executor.cpp:858-895 | k comparisons that all go on take k steps, with the flags of the last one; an unreadable element stops the run there |
| StringSearch.LastComparison | microx/Executor.cpp:873-895 | a repeated comparison from a count above zero has a last iteration, whatever the strings hold |
| StringSearch.CompareEnds | microx/Executor.cpp:873-895 | the run stays at the instruction until that iteration and then moves on |
| StringSearch.RepeCmpsCompares | microx/Executor.cpp:858-895 | REPE CMPS: ZF exactly if all element pairs are equal; else it stops just past the first that differ, with the count lowered by as many, and CF exactly if the source element is less |
| StringSearch.RepneScasFinds | microx/Executor.cpp:824-883 | REPNE SCAS stops just past the first element equal to the accumulator, or exhausts the count if there is none, and ZF says which |
| Memcmp.CompareThenBranch | microx/Executor.cpp:983-1069 | REPE CMPS and an unsigned conditional jump take the branch exactly when the two whole strings are in the lexicographic order that the jump stands for |
| Memcmp.FirstDifference | microx/Executor.cpp:885-895 | lexicographic order is decided by the first pair of elements that differ |
| Strlen.ScanForNul | examples/example_rep.py:20-26 | repne scasb for zero from a count of -1 takes one step a byte and leaves -1 minus the number of bytes scanned |
| Strlen.StringLength | examples/example_rep.py:20-26 | with not and dec on the count it leaves the index of the first NUL, for every string shorter than the largest count |
| StackSteps.PushStep | microx/Executor.cpp:577-599 | CALL and PUSH move the stack pointer down by the operand's size, leave the value exactly there, and continue at the target or behind the PUSH |
| StackSteps.PopStep | microx/Executor.cpp:1278-1303 | RET and POP take the value at the stack pointer, move it up, and leave memory alone |
| StackForms.RetImmStep | microx/Executor.cpp:1171-1175 | RET with an immediate continues at the value at the stack pointer, and moves it up by the return address and the unsigned low sixteen bits of the immediate |
| StackForms.PopMemStep | microx/Executor.cpp:1294-1297 | POP into memory stores the value at the stack pointer, at an address taken with the stack pointer already moved, and moves it |
| StackForms.LeaveStep | microx/Executor.cpp:1305-1308 | LEAVE takes the stack pointer from the frame pointer, and the frame pointer from memory |
| StackRuns.PopsRestorePushes | microx/Executor.cpp:1147-1169 | in every disciplined run each pop has exactly one matching push, by counting alone: RET continues behind its CALL, POP loads its PUSH's value, and the stack pointer is where it was before the push |
| StackRuns.BalancedStack | microx/Executor.cpp:1147-1169 | after a balanced run the stack pointer is where it began |
| StackRuns.AboveStackUnchanged | microx/Executor.cpp:1278-1303 | when all instructions push or pop, memory at or above the initial stack pointer is unchanged |
| StackRuns.OutsideIsQuiet | microx/Executor.cpp:713-723 | an instruction that does not write the stack pointer, and writes memory only outside the stack, may stand anywhere in a disciplined run |
| PagedMemory.MemoryMap.StoreBytes | microx/__init__.py:280-288 | stores up to the first byte that has no index, from any address, below the map's start too; the default map refuses |
| PagedMemory.Memory.FindMap | microx/__init__.py:389-390 | a lookup changes no content, no permission and no map, though it may leave a default map behind |
| PagedMemory.Memory.CrossesPages | microx/__init__.py:392-399 | false exactly when one map is on the pages of all the bytes; true when two of them are on pages of different maps |
| PagedMemory.Memory.AddMap | microx/__init__.py:404-409 | refuses a start that is not aligned to a page; else the map is on exactly its pages, and the others are as they were |
| PagedMemory.Memory.LoadByte | microx/__init__.py:431-437 | at any address: the byte that the map on its page has there or, if the map starts above it, that far from its end; None if there is none. Where no map starts above it, that is the flat memory's byte |
| PagedMemory.Memory.StoreByte | microx/__init__.py:450-455 | at any address: exactly one byte of the map on its page changes, the one that far from its end if the map starts above it, or none and it fails. Where no map starts above it, that is the flat memory's store |
| PagedMemory.Memory.LoadBytewise | microx/__init__.py:431-437 | at any addresses: the bytes that the maps give one by one, or None if one is not given; on ranges where no map starts above a byte, the flat memory's bytes, exactly if they are all mapped |
| PagedMemory.Memory.Load | microx/__init__.py:420-437 | at any addresses: through one map and at sizes 1, 2, 4 and 8 a slice of that map, and else the bytes one by one; on ranges where no map starts above a byte, the flat memory's bytes, by either path, also across pages and maps, up to the first that is not mapped |
| PagedMemory.Memory.StoreBytewise | microx/__init__.py:450-455 | at any addresses: the data of all maps afterwards are those with the bytes taken one by one, up to the first that has no place; on ranges where no map starts above a byte, that is the flat memory with the bytes up to the first that is not mapped |
| PagedMemory.Memory.Store | microx/__init__.py:439-455 | the same by either path: storing through one map and storing byte by byte leave the same data; no other byte, and no permission, changes |
| PagedMemory.Process.ReadMemory | microx/__init__.py:526-557 | succeeds exactly when every byte has the permissions that the hint asks for, and returns the bytes |
| PagedMemory.Process.WriteMemory | microx/__init__.py:559-561 | on mapped ranges exactly those bytes are stored, whatever their permissions; else those up to the first that is not mapped, or, on the page of a map that starts above them, as `Memory.Store` |
| PagedMemory.CheckedWriteProtects | microx/__init__.py:526-561 | a write whose bytes were checked for writing changes no byte that is not writable, and is read back |
| PageTables.DefaultUnseen | microx/__init__.py:351 | a default map on a page that has none changes nothing that can be observed |
| PageTables.StoreThroughMap | microx/__init__.py:439-449 | bytes written into one map, on however many pages, are those bytes stored in the flat memory, and nothing else |
| PagedMemory.TakeThrough | microx/__init__.py:439-455 | bytes taken one by one by one map are its data with the bytes stored at once |
| PageTables.SliceExactly | microx/__init__.py:236-254 | one byte sliced from a map: exactly for its own addresses, and for those below its start that are within its length, but for the last; and which byte it is |
| PageTables.IndexExactly | microx/__init__.py:280-288 | one byte stored into a map: exactly for its own addresses, and for those below its start that are within its length |
| PageTables.StoredBytes | microx/__init__.py:280-288 | from inside a map on, exactly the bytes up to its end are stored |
| PageTables.StoredBelow | microx/__init__.py:280-288 | bytes that lie just below a map's start land at its end instead |
| PageTables.SliceBelow | microx/__init__.py:252-254 | bytes loaded from just below a map's start come from its end |
| PageTables.RangesStart | microx/__init__.py:404-409 | a range has no byte on the page of a map that starts above it, if no map reaches beyond the address space, or if all its bytes are mapped |
| PageTables.LoadIsFlat | microx/__init__.py:420-429 | a slice of one map is the flat memory's bytes up to the first that is not mapped |
| PageTables.SizedLoadComplete | microx/__init__.py:236-250 | a sized load has all its bytes exactly when they are all mapped |
| PageTables.ShortLoad | microx/__init__.py:240-242 | it can come out short: a word loaded at the last byte of a map has one byte |
| PageTables.AddedView | microx/__init__.py:404-409 | an added map is visible at its addresses and hides what was on its pages; the other pages are as before |
| PageTables.CoveredPages | microx/__init__.py:404-409 | inside the address space, stepping by pages reaches every page that a map has bytes on |
| Areas.MergeSeparates | godefroid/policies.py:163-197 | merged areas are strictly increasing and pairwise disjoint |
| Areas.MergeCovers | godefroid/policies.py:163-197 | they cover exactly the bytes of the areas merged |
| Areas.MergeIdempotent | godefroid/policies.py:163-197 | merging them again changes nothing |
| Areas.MergeKeepsWhole | godefroid/policies.py:175-195 | each area lies within one of the merged ones |
| Areas.MergeStarts | godefroid/policies.py:175-195 | each merged area starts where one of the areas did |
| InputPolicy.InputMemoryPolicy.HandleCompute | godefroid/policies.py:267-292 | an address in range, or computed from a known input other than zero, becomes a known input |
| KnownInputs.KnownExactly | godefroid/policies.py:118-138 | in every run that does not abort, an address is a known input if and only if it was read before it was written, or computed while it was one, lay in pointer space or among the arguments, or had a part other than zero that was one; with the size of the last such event |
| KnownInputs.InputsReportedExactly | godefroid/policies.py:199-238 | so a byte is reported as input if and only if it is one of such an event that no later one with the same address replaces |
| PointerRuns.RunPointers | godefroid/policies.py:79-92 | in every run, pointers are given out of slots 0x400 apart, of which a read at pointer size takes the next one and so does a new computed address beyond it; the pointer recorded for an address is the slot of its last read at pointer size; and a run aborts if and only if an event finds no room for its slot, its pointer, or data of its size |
| PointerRuns.KindOverRun | godefroid/policies.py:148-156 | an input is a pointer, and to which slot, exactly if its address was ever read at pointer size |
| PointerRuns.ReportedKinds | godefroid/policies.py:199-238 | a reported area has the kind of the first of its inputs that reaches up to its end, as its reads have it |
| PolicyBounds.RangesDisagree | godefroid/policies.py:98-116 | loads count the end of a range as inside and computed addresses do not: the two disagree there and nowhere else |
| InputPolicy.InputMemoryPolicy.GetOutputs | godefroid/policies.py:158-197 | the report has separate areas that cover exactly the bytes of the known outputs, and is stable under merging |
| InputPolicy.InputMemoryPolicy.GetInputs | godefroid/policies.py:199-238 | likewise for inputs, with the kinds that the merge gives them |
| InputPolicy.PointersDisjoint | godefroid/policies.py:79-92 | in every run that does not abort, pointers' regions are disjoint and lie inside the pointer space, no two addresses share one, and there are no more than fit |
| InputPolicy.PointerRead | godefroid/policies.py:123-134 | a read at pointer size returns the little-endian bytes of the pointer recorded for its address |
| InputPolicy.PointerFails | godefroid/policies.py:79-92 | it fails exactly when there is no room for another pointer, or the pointer does not fit its size |
| InputPolicy.InputAreas | godefroid/policies.py:199-238 | inputs are merged into the same areas as outputs would be |
| InputPolicy.InputKind | godefroid/policies.py:226-232 | a merged input has the kind of the first of its inputs that reaches up to its end |
| PolicyMap.PolicyMemoryMap.LoadPolicy | godefroid/policy_map.py:32-59 | asks the policy exactly if it cares and some byte was never written, and marks the bytes read |
| PolicyMap.PolicyMemoryMap.StorePolicy | godefroid/policy_map.py:61-93 | tells the policy of an output if it cares, and marks the bytes written |
| PolicyBounds.LoadMarks | godefroid/policy_map.py:32-59 | at any address, a load that succeeds marks exactly its bytes read if the policy cares about the address, ends of its ranges included, and else changes nothing |
| PolicyBounds.StoreMarks | godefroid/policy_map.py:61-93 | a store that succeeds marks exactly its bytes written and is noted as an output if the policy cares, and else changes only data |
| PolicyMap.PolicyMemoryMap.StoreBytesRaw | godefroid/policy_map.py:135-145 | the bytes are stored one by one up to the first index out of range |
| PolicyMap.OutputsAreWritten | godefroid/policy_map.py:61-93 | in every run of loads, stores and address computations that does not fail, each byte of a known output is marked written |
| PolicyMap.ReportedAreWritten | godefroid/policies.py:158-197 | so each byte that `GetOutputs` reports is marked written |
| Outputs.ReportedExactly | godefroid/policies.py:158-197 | in every run that does not fail, a byte is reported if and only if it is one of a store that the policy is told of and that no later one with the same start replaces |
| Outputs.WrittenExactly | godefroid/policy_map.py:61-93 | a byte is marked written if and only if it is one of a store that the policy is told of |
| Outputs.CompleteExactly | godefroid/policies.py:140-197 | the report has every byte that was written if and only if each byte of a replaced store is one of a store that was not replaced |
| Outputs.NoneShorterLoses | godefroid/policies.py:140-156 | so it is if no store is shorter than an earlier one with the same start |
| Outputs.OutputLost | godefroid/policies.py:140-156 | a word stored and then a byte at the same address: the word's second byte was written and is not reported |
| PolicyMap.LoadAfterStore | godefroid/policy_map.py:95-149 | a load right after a store of the same bytes finds them and leaves them |
| PolicyMap.LoadFaithful | godefroid/policy_map.py:38-54 | a load is sure to return what memory holds exactly when the policy does not care, or all the bytes have been written, or, at pointer size, a pointer can be issued and memory happens to hold it |
| PolicyMap.LoadPointer | godefroid/policy_map.py:38-54 | a load at pointer size that touches a byte never written returns a new pointer, or fails if there is none |
| PolicyMap.LoadChanges | godefroid/policy_map.py:32-54 | a load changes the data only then, and to what it returns |
| PolicyMap.WrittenByteLost | godefroid/policy_map.py:42-54 | a load of two bytes of which one was written overwrites that one |
| PolicyMap.RunLeaves | godefroid/policy_map.py:95-149 | in every run, a byte stays until it is stored over, or a load that invents data touches it |

## Left out

- XED decoding and encoding, code emission, inline assembly, signals and host flags: parameters of `Machine.Machine` and of `Execute`. `Machine.Trusted` is assumed of the decoder and the host.
- The size argument and the segment base of address computation: `Executor.cpp:663-665` passes a size that is set only later, and segment bases come from a callback.
- FPU, MMX, SSE and AVX contents: the FPU is one opaque value, and registers are the seventeen general ones; the XMM operands that `Executor.cpp:1827-1917` hands to the host are not modelled. AVX execution is a stub in the source.
- MicroExecutor.Executor.ReadRegister: the X87 and MMX register classes and the STACKPUSH and STACKPOP pseudo-registers are not modelled.
- MicroExecutor.Executor.ExecuteNative: the host's dependence on its operands alone is assumed (`StackAlias.OperandFunctional`), since machine code is not modelled.
- MicroExecutor.Executor.EncodeInstruction: whether the renamed operands can be encoded is asked of a parameter, which is assumed to answer as for the original ones.
- SF and OF after SCAS and CMPS: `Executor.cpp:803-806` shifts by a power of two where the operand's top bit is meant. The shift is an unknown function, so signed branches after string comparisons say something only if it gives that bit (`Branches.ComparedIfShifted`).
- MicroExecutor.Executor.Emulate: PUSH, POP and MOV of segment registers, PUSHF and POPF, XLAT, RDTSC, the BT family's rebased addresses, and 16-bit addressing as a mode are not modelled.
- StackRuns.PopsRestorePushes: RET with an immediate and POP into memory do not count as pops; they are modelled, and may occur where they are quiet. CALL and RET are taken at the address width.
- Memmove.StringStored: assumes that a REP run does not overwrite the bytes of its own instruction.
- The theorems on strings, searches and the stack are about users who refuse nothing that the instructions involved read or write (`Isa.WritesGranted`); the others are in `TornSteps`.
- The executor's static arrays of registers and memory operands are sequences held in fields, replaced whole on each update.
- MicroExecutor.Executor.WriteMemory: the user's memory is that of `Process`, which does not refuse what it granted; callbacks that would are not modelled.
- `Memory.find_hole` and `find_maps_by_name`, proxies for maps and threads, and the conversions between Python's byte strings and lists.
- The time stamp counter that `Process.execute` adds to after a run.
- Several maps that share one policy: `PolicyMap` has one map to a policy.
- The default policy, which leaves all data as they are, and copying maps and policies, printing, the command line, the loader of `godefroid/godefroid.py` and the CPython binding.
