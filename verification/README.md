# Verified model of the EVM assigner

A Dafny 4.11 model of the evmone-based assigner: it validates EOF containers, interprets legacy and EOF
byte code while recording a read/write trace, turns the trace into a sorted table, and meters gas over nested
calls. The project proves what the interpreter relies on from validation, what the circuit relies on from the
trace, and what callers rely on from the gas and balance accounting.

Loops, buffers and objects of the source are methods and classes proved against specification functions; the
theorems over whole runs are lemmas about those functions. Integers are unbounded, and casts and wrap-around
are written out where the source has them. The release build is modelled: assertions are not checks.

| module | content |
|---|---|
| Bytes, Opcodes, Words | words, operand readers, traits and gas tables, big-endian encodings |
| EofInstructions, EofStackHeight, EofHeader, EofValidation | the EOF validator, stage by stage |
| Interpreter | `check_requirements`, `invoke` and the instructions as a step function with trace records |
| Effects, Records | what each instruction answers and which records it makes, by the properties that define them |
| ExecutionState | the same in place: a class with one method per instruction, and the dispatch loop |
| EofSoundness, EofContainer | type soundness and return discipline of validated code, down to the container |
| Accesses, MemorySafety | the array elements every instruction accesses, and exactly when a run accesses one that does not exist |
| LegacyCode, BytecodeTable | padding, jump analysis, safety and termination on arbitrary code; the bytecode rows |
| RwTrace, RwColumns, RwTable | offline memory checking, chunk columns, the filled table |
| TraceConsistency | runs produce traces that replay to the live state, and tables that pass the check |
| Assigner | a condition on the code for such runs, gas as a bound on records, and `evaluate` with `handle_rw` in one |
| MemoryGas, StorageGas, CallGas, VmHost | memory growth and cost, SSTORE metering, nested calls, account balances |
| Evaluation | the recursion of `evaluate` through calls and creations: when it terminates, for every host |
| Samples | concrete programs that validation accepts, that do not jump, that revert |
| Limits, Minting | concrete programs on which a property fails |

Results of host calls, hashing and the library routines behind EXP, SIGNEXTEND, signed arithmetic, shifts and
bitwise operators are parameters (a `Choice` per step), so every theorem holds for all of them. A step whose
continuation would come from outside the code buffer, the stack array, the return stack or the data section has the
outcome `Fault`. The code buffer is the whole container, or legacy code with its padding. Which accesses leave an
array at all is stated separately, from a list of the elements each instruction accesses (`StaysInside`).

## Where the code departs from what it documents

- EOF code is not padded, but PUSH5 and PUSH6 load eight bytes. In an accepted container they read past its end
  when fewer than eight bytes follow the opcode; every other push stays inside, because a terminating instruction
  follows it (`OverReadingFaults` is a container of 26 bytes).
- The extra records of PUSH2 to PUSH31 read words in front of the stack array when fewer items are on the stack
  (`ShallowPush` is the program 61 00 01). Such a step goes on; the words end only in the trace and are arbitrary.
- The indexed DUP and SWAP (0xa7, 0xa6) do not check the depth they take from the stack. A depth that leads outside
  the stack array faults; a negative one inside it copies a stale word from above the top.
- These are all the accesses that instructions other than host instructions make outside the code buffer, the stack
  array, the section tables, the data section, the return stack or memory: `AcceptedAccessesExactly` for containers,
  `LegacyAccessesExactly` for legacy code.
- Two host instructions leave memory. KECCAK256 records 32 bytes whatever their number, past the block when memory
  fills it and hashing starts in its last 31 bytes (`HashRecords`, `HashAtPageEnd`). MCOPY checks the larger of two
  256-bit operands but copies at their low 64 bits (`MoveCovered`, `MoveUncovered`).
- SWAP1-16 and the indexed SWAP record their second write one slot above the one that changes, and MULMOD records
  the top item although the result goes to the third. `SwapTraceExact`, `SwapAtTraceExact` and `MulModTraceExact`
  are the exact conditions, `SwapUnexplained` and `MulModUnexplained` programs whose traces no memory explains.
- A CALL gas operand with low 64 bits of 2^63 or more is cast to a negative number. If it undercuts zero by more than
  the surcharges paid, a failing callee leaves the caller richer (`CallConservesExactly`): `MintsGas` is an execution
  that returns more gas than it was given, and `NeverEnds` one of 26 bytes that calls itself forever.
- Stored section offsets are 16 bits wide and wrap around in larger containers. The validator and the interpreter
  use the same stored offsets, so they agree in containers of every size (`CalleeIsSection`), but only while the
  last section starts below 65536 are the bytes they agree on the sections the header lays out (`OffsetsExact`).
- In legacy Prague code DUPN and SWAPN have an immediate byte that jump analysis does not know of
  (`LegacyStepAligned`, `PragueEntersPushData`).
- Opcodes undefined in every revision have a constant cost of -1: the check passes, and the default case of the
  switch reports them. JUMP, JUMPI and PC also have constant cost, so the EOF table does not stop them; validation
  does.
- MSTORE8, MSTORE16, MSTORE32 and MSTORE64 charge and record 32 bytes; MLOAD8 to MLOAD64 behave as MLOAD.
- The FIELD_TYPE column is part of the sorting order but never written.
- The host's storage statuses are not those of the interface documentation (`HostStatusExact`).
- The host answers cold to every storage access, so from Berlin on each write pays 2100 (`ColdHostBill`).
- LENGTH_LEFT of the bytecode table counts down from one byte of code, as a `size_t` that wraps around below zero.

## Model

| member | source | states |
|---|---|---|
| `EofInstructions.DecodeStep` | lib/assigner/evmone/eof.cpp:225-274 | Linear decoding is closed under stepping: the byte after a decoded instruction is again a decode point. |
| `EofInstructions.NoStartInside` | lib/assigner/evmone/eof.cpp:225-274 | Instructions never overlap: no immediate byte, including those of a variable-size RJUMPV table, is a decode point. |
| `EofInstructions.ValidateInstructions` | lib/assigner/evmone/eof.cpp:215-283 | The loop accepts exactly the sections whose every instruction start is defined, untruncated, and has legal section and data operands, and whose returning flag matches its instructions; any other error is the one of the first offending start. |
| `EofInstructions.CollectTargets` | lib/assigner/evmone/eof.cpp:285-326 | One relative jump: exactly its absolute targets, table entries included, are appended, or the scan fails because one lies outside the section. |
| `EofInstructions.ValidateRjumpDestinations` | lib/assigner/evmone/eof.cpp:285-338 | True if and only if every relative jump target of every instruction start is itself an instruction start of the section. |
| `EofStackHeight.ValidateSuccessor` | lib/assigner/evmone/eof.cpp:430-443 | One successor: an unvisited location gets the height and joins the worklist; a visited one is left alone and must agree. |
| `EofStackHeight.ValidateSuccessors` | lib/assigner/evmone/eof.cpp:423-476 | All control-flow successors in the order the code visits them: success completes the visit of the instruction, failure exhibits two paths with different heights. |
| `EofStackHeight.VisitError` | lib/assigner/evmone/eof.cpp:369-421 | The chain of checks on a popped location returns exactly the first violated rule; what the rules are, CallfRule, JumpfRule, JumpfReturningRule, RetfRule and OtherRule say on numbers alone. |
| `EofStackHeight.AnalyzeHeights` | lib/assigner/evmone/eof.cpp:342-485 | The worklist loop terminates; Ok means every path to an instruction has the recorded height, every start is reached and the maximum is attained; an error is witnessed by a path. |
| `EofStackHeight.ValidateMaxStackHeight` | lib/assigner/evmone/eof.cpp:342-485 | Ok if and only if some maximum height types the section over all its control-flow paths. |
| `EofStackHeight.InstructionRule` | lib/assigner/evmone/eof.cpp:215-283 | The linear check, decided at each instruction start from the bytes alone: it passes if and only if the opcode is defined, its immediates are complete, CALLF names a section that returns, JUMPF names a section, and DATALOADN 32 bytes of the data. |
| `EofStackHeight.CallfRule` | lib/assigner/evmone/eof.cpp:372-386 | CALLF on h items is refused if and only if h is below the callee's inputs, h less inputs plus the callee's maximum exceeds 1024, or nothing follows; the overflow verdict is exactly the second, the underflow verdict the first without it. |
| `EofStackHeight.JumpfRule` | lib/assigner/evmone/eof.cpp:387-410 | JUMPF to a section that never returns: refused if and only if h is below its inputs or the same overflow bound fails. |
| `EofStackHeight.JumpfReturningRule` | lib/assigner/evmone/eof.cpp:387-410 | JUMPF to a section that returns: accepted if and only if the height is the caller's outputs plus the target's inputs less its outputs, at most 127 because of the cast, within the same bound, and the target has no more outputs than the caller. |
| `EofStackHeight.RetfRule` | lib/assigner/evmone/eof.cpp:411-416 | RETF is accepted if and only if the height is exactly the number of outputs. |
| `EofStackHeight.OtherRule` | lib/assigner/evmone/eof.cpp:369-421 | Every other instruction is refused for too few items, or because it is not terminating and nothing follows. |
| `EofStackHeight.VerdictsExclusive` | lib/assigner/evmone/eof.cpp:356-484 | A section refuted by a path has no typing at all, so the verdict does not depend on the visiting order. |
| `EofStackHeight.StackOkTyping` | lib/assigner/evmone/eof.cpp:356-484 | From all paths to one table: each start has one height, within 0 and the maximum, that satisfies its local rules and determines its successors' heights. |
| `EofStackHeight.ChangeKeepsNonNegative` | lib/assigner/evmone/eof.cpp:376-421 | An accepted instruction never takes the height below zero, and the int8 casts of CALLF are exact for the type limits. |
| `EofStackHeight.SuccessorsAreStarts` | lib/assigner/evmone/eof.cpp:423-476 | After the two linear checks, the worklist's successors are instruction starts inside the section: the three decoders agree. |
| `EofHeader.ValidateEofHeaders` | lib/assigner/evmone/eof.cpp:69-180 | The state machine computes the same result as a recursive-descent reading of the EIP-3540 header grammar, error cases included. |
| `EofHeader.ReadCodeSizes` | lib/assigner/evmone/eof.cpp:111-140 | Reading section sizes advances by two bytes each and gives the list the grammar reading gives, or its error. |
| `EofHeader.HeadersRoundTrip` | lib/assigner/evmone/eof.cpp:69-180 | A container is parsed to headers h if and only if it starts with the printed form of well-formed h and its body has exactly the declared size. |
| `EofHeader.ParsedIsPrinted` | lib/assigner/evmone/eof.cpp:69-180 | Whatever is accepted is the printed form of the result; eof_header_size is the number of bytes consumed (13 + 2n). |
| `EofHeader.PrintedIsParsed` | lib/assigner/evmone/eof.cpp:39-50 | Every well-formed header, printed before a body of the right size, is accepted and read back unchanged. |
| `EofHeader.WrongBodies` | lib/assigner/evmone/eof.cpp:155-180 | Complete headers before more or fewer bytes than they announce give exactly the error about the bodies. |
| `EofHeader.TruncatedContainer` | lib/assigner/evmone/eof.cpp:69-180 | Any proper prefix of a container with headers in order is refused, and the error says where it was cut: each of the four errors holds for exactly its own positions. |
| `EofValidation.ValidateTypes` | lib/assigner/evmone/eof.cpp:182-213 | The types are read in order and accepted exactly when the first is (0, non-returning) and all inputs, outputs and maxima are within their limits; otherwise the error is that of the first offending type. |
| `EofValidation.TypeLimits` | lib/assigner/evmone/eof.cpp:182-213 | The limits in numbers, and which types get which of the two errors. |
| `EofValidation.AccumulateOffsets` | lib/assigner/evmone/eof.cpp:506-516 | The stored 16-bit offsets are the running sums of header, type section and code sizes, reduced modulo 65536. |
| `EofValidation.OffsetsExact` | lib/assigner/evmone/eof.cpp:506-516 | The stored offsets are where the header puts the sections, for every section, if and only if the last code section starts below 65536. |
| `EofValidation.ValidateSection` | lib/assigner/evmone/eof.cpp:518-535 | The three per-section checks in the code's order accept exactly the sections that pass all three statements about instructions, jumps and paths; an error is the reason of the first check that fails. |
| `EofValidation.MaxUnique` | lib/assigner/evmone/eof.cpp:527-534 | The maximum stack height of a section is determined by its paths, so comparing it with the declared one is meaningful. |
| `EofValidation.ValidateEof1` | lib/assigner/evmone/eof.cpp:487-536 | Accepts exactly the containers whose headers, types and every code section are valid, and returns their header; otherwise the error is that of the headers, else of the types, else of the first section that is not valid. |
| `EofValidation.ValidateEof` | lib/assigner/evmone/eof.cpp:605-625 | No error if and only if the revision is Prague, the container has the EOF prefix and version 1, and is valid as stated without any algorithm; every other combination has its one error. |
| `EofValidation.ReadValidEof1Header` | lib/assigner/evmone/eof.cpp:546-596 | The reader that trusts validation returns, on every container with parseable headers, the same header as the validator. |
| `EofValidation.CalleeIsSection` | lib/assigner/evmone/instructions.hpp:1585-1587 | In a container of any size, the position that CALLF and JUMPF compute from the stored offsets is where get_code took the bytes that were validated, even when offsets have wrapped around. |
| `Interpreter.TraitsMatchImplementation` | lib/assigner/evmone/instructions_traits.hpp:247-436 | For all 256 opcodes the traits table agrees with the implementation the opcode is mapped to: items reached, net effect, immediate bytes, termination. The arities of host instructions are written out independently. |
| `Interpreter.CheckPassed` | lib/assigner/evmone/baseline.hpp:98-137 | A passed check guarantees the required height, room for a push, and non-negative gas after the charge. |
| `Interpreter.OrdinaryShape` | lib/assigner/evmone/baseline.hpp:139-228 | Every instruction outside the control group moves past its immediate, changes the height by its trait and leaves the return stack alone, for any answer of the outside world; each status has the instructions that can halt with it, and Fault comes only from a load past the buffer or an index outside the stack array. |
| `Interpreter.HarmfulFaults` | lib/assigner/include/zkevm_word.hpp:229-250 | A PUSH5 or PUSH6 whose load passes the end of the buffer, and an indexed DUP or SWAP that leads outside the stack array, have the outcome Fault in every step that passes the check. |
| `Interpreter.DefinedUnimplemented` | lib/assigner/evmone/baseline.hpp:206-222 | An opcode is defined and has no implementation if and only if it is LOG0, LOG2, LOG3, LOG4 or PRINTF (0xa0, 0xa2 to 0xa5). |
| `Interpreter.ImplementedCost` | lib/assigner/evmone/baseline.hpp:103-116 | An implemented opcode never passes the check with a negative charge, although the Frontier entry is used for constant-cost opcodes. |
| `Interpreter.ControlCost` | lib/assigner/evmone/instructions_traits.hpp:35-201 | Every instruction that can move the position backwards costs gas in every revision where it is defined. |
| `Interpreter.StepProgresses` | lib/assigner/evmone/baseline.hpp:230-251 | If the host gives no gas back, a continuing step either burns gas or moves forward, never raises gas, and changes the return stack only at CALLF and RETF. |
| `Interpreter.RunMeasure` | lib/assigner/evmone/baseline.hpp:230-251 | If the host gives no gas back, a run that stays inside its code takes at most gas * (|code| + 1) + |code| continuing steps. |
| `Interpreter.SubUndoesAdd` | lib/assigner/evmone/instructions.hpp:255-280 | SUB takes the top item as minuend and inverts ADD modulo 2^256. |
| `Interpreter.SwapTwice` | lib/assigner/evmone/instructions.hpp:1160-1195 | An exchange touches exactly two items and a second one undoes it. |
| `Interpreter.StoreThenLoad` | lib/assigner/evmone/instructions.hpp:923-957 | MSTORE and then MLOAD at the same offset gives the word back, at no further memory cost and without changing memory. |
| `Effects.CheckExact` | lib/assigner/evmone/baseline.hpp:98-137 | check_requirements from both sides: each status is reported if and only if its own condition holds and no earlier one does; the check passes exactly with a defined price, enough items, room up to 1024 and gas for the price, all of it included. |
| `Effects.BinaryEffect` | lib/assigner/evmone/instructions.hpp:255-444 | ADD, MUL, SUB, DIV, MOD, LT, GT, EQ: the two top items are replaced by the number that the operation is defined by, with the top item as left operand, and nothing else changes. |
| `Effects.UnaryEffect` | lib/assigner/evmone/instructions.hpp:445-484 | ISZERO and NOT by their defining equations. |
| `Effects.ModuloEffect` | lib/assigner/evmone/instructions.hpp:322-344 | ADDMOD and MULMOD leave the remainder of the unbounded sum and product by the third item, and 0 for a zero modulus. |
| `Effects.CounterEffect` | lib/assigner/evmone/instructions.hpp:1044-1062 | PC counts from the start of the executable code, MSIZE in bytes, GAS after the base charge. |
| `Effects.PushNumberEffect` | lib/assigner/evmone/instructions.hpp:1089-1131 | PUSH0 to PUSH32 push the big-endian number behind the opcode, or fault if and only if their loads pass the end of the buffer. |
| `Effects.CopyEffect` | lib/assigner/evmone/instructions.hpp:1136-1155 | DUP1 to DUP16 push the item so far down and change nothing else. |
| `Effects.ExchangeEffect` | lib/assigner/evmone/instructions.hpp:1160-1195 | SWAP1 to SWAP16 exchange the top with the item so far below it and change nothing else. |
| `Effects.ReachEffect` | lib/assigner/evmone/instructions.hpp:1201-1240 | DUPN and SWAPN act one item deeper than their immediate byte, and underflow exactly if there is no such item. |
| `Effects.IndexedCopyEffect` | lib/assigner/evmone/instructions.hpp:1136-1149 | The indexed DUP replaces its operand by the item that many places below it, and faults exactly if the slot lies outside the 1024 words. |
| `Effects.IndexedExchangeEffect` | lib/assigner/evmone/instructions.hpp:1160-1195 | The indexed SWAP drops its operand and exchanges as SWAP does, at the depth of its low 16 bits; too large a depth faults and depth 0 exchanges nothing. |
| `Effects.LoadEffect` | lib/assigner/evmone/instructions.hpp:923-939 | MLOAD out of gas, or the 32 bytes at the offset in the extended memory. |
| `Effects.StoreEffect` | lib/assigner/evmone/instructions.hpp:941-976 | MSTORE of any width out of gas, or the low bytes of the word at the offset and no other byte changed. |
| `Effects.DataEffect` | lib/assigner/evmone/instructions.hpp:1301-1308 | DATALOADN pushes the 32 bytes that its operand names. |
| `Effects.JumpEffect` | lib/assigner/evmone/instructions.hpp:978-997 | JUMP goes to the marked destination on top, or reports a bad one. |
| `Effects.JumpIEffect` | lib/assigner/evmone/instructions.hpp:999-1006 | JUMPI goes on at the next byte if and only if the low 64 bits of the second item are zero; otherwise it jumps as JUMP does. |
| `Effects.RelativeEffect` | lib/assigner/evmone/instructions.hpp:1008-1020 | RJUMP goes to pc + 3 + offset; RJUMPI goes to pc + 3 if and only if the low 64 bits of its operand are zero, else to pc + 3 + offset. |
| `Effects.TableEffect` | lib/assigner/evmone/instructions.hpp:1022-1042 | RJUMPV goes past its table if and only if the operand exceeds the last index, else by the selected offset. |
| `Effects.FrameEffect` | lib/assigner/evmone/instructions.hpp:1563-1614 | CALLF and JUMPF overflow if and only if the items below the inputs plus the callee's maximum exceed 1024, or CALLF finds 1024 return addresses; otherwise they enter the named section, CALLF with the return address pc + 3. |
| `Effects.ReturnEffect` | lib/assigner/evmone/instructions.hpp:1590-1595 | RETF pops the return address. |
| `Effects.HaltEffect` | lib/assigner/evmone/instructions.hpp:1616-1637 | STOP, INVALID, RETURN and REVERT halt with their own status, the last two out of gas if their range cannot be paid for. |
| `Records.ArithmeticRecords` | lib/assigner/evmone/instructions.hpp:255-484 | Arithmetic appends a read of every operand, from the bottom up, and one write of the result slot; MULMOD writes its top operand instead. |
| `Records.PushesRecord` | lib/assigner/evmone/instructions.hpp:1044-1131 | A pushed value is recorded once; PUSH1 to PUSH31 record as many top slots, from the top down, as they have data bytes, if there are so many. |
| `Records.MovesRecord` | lib/assigner/evmone/instructions.hpp:1136-1240 | DUP, SWAP, DUPN and SWAPN: the reads and writes in order, with the slot that SWAP1 to SWAP16 name wrongly. |
| `Records.IndexedCopyRecords` | lib/assigner/evmone/instructions.hpp:1136-1149 | The records of the indexed DUP. |
| `Records.IndexedExchangeRecords` | lib/assigner/evmone/instructions.hpp:1160-1195 | The records of the indexed SWAP, for depth 0 and above. |
| `Records.AccessesRecord` | lib/assigner/evmone/instructions.hpp:923-976 | Loads and stores append their operands, the 32 bytes in the order of their addresses and, for loads, the written word; RETURN and REVERT only their operands. |
| `Records.JumpsRecord` | lib/assigner/evmone/instructions.hpp:978-1042 | Jumps append reads of their operands, taken or not; section calls, returns, POP, STOP and INVALID append nothing. |
| `EofSoundness.SiteHolds` | lib/assigner/evmone/eof.cpp:342-485 | At every position the invariant allows, the interpreter reads the validated section's own bytes and the validator's facts apply. |
| `EofSoundness.CheckSafe` | lib/assigner/evmone/baseline.hpp:98-137 | In validated code the requirements check can only report lack of gas: never underflow, overflow or an undefined instruction. |
| `EofSoundness.OrdinarySound` | lib/assigner/evmone/baseline.hpp:139-228 | Instructions that fall through keep the invariant; DATALOADN reads inside the data section, and of the pushes only PUSH5 and PUSH6 can read past the container, because a terminating instruction follows every push. |
| `EofSoundness.RJumpSound` | lib/assigner/evmone/instructions.hpp:1008-1020 | RJUMP and RJUMPI keep the invariant and land on a successor the validator visited; which one, RJumpExec says. |
| `EofSoundness.RJumpVSound` | lib/assigner/evmone/instructions.hpp:1022-1042 | RJUMPV reads the table the validator measured and lands on the successor of the selected entry, or after the table. |
| `EofSoundness.RJumpExec` | lib/assigner/evmone/instructions.hpp:1008-1020 | RJUMP and RJUMPI in numbers: pc + 3, or pc + 3 + offset, decided by the low 64 bits of the operand. |
| `EofSoundness.EverySuccessorTaken` | lib/assigner/evmone/eof.cpp:423-476 | The validator visits no successor in vain: for each one of a relative jump there is an operand with which the interpreter goes there. |
| `EofSoundness.OverflowAgrees` | lib/assigner/evmone/instructions.hpp:1563-1614 | The overflow that the validator refuses at CALLF or JUMPF on h items is exactly the one the interpreter reports on h items and an empty return stack. |
| `EofSoundness.CallFSound` | lib/assigner/evmone/instructions.hpp:1563-1588 | CALLF opens a frame at the callee's entry with a valid return address, or reports overflow from its own run-time checks. |
| `EofSoundness.JumpFSound` | lib/assigner/evmone/instructions.hpp:1597-1614 | JUMPF replaces the frame and keeps the promise made to the caller, because its height is fixed to outputs + inputs - outputs of the target. |
| `EofSoundness.RetFSound` | lib/assigner/evmone/instructions.hpp:1590-1595 | RETF never sees an empty return stack and resumes the caller at the validated height. |
| `EofSoundness.StepSafe` | lib/assigner/evmone/baseline.hpp:230-251 | Progress and preservation: from the invariant every step keeps it or ends in an excused way, each status with the instructions that can cause it: lack of gas from the check or from memory and host instructions, overflow from CALLF and JUMPF, underflow from DUPN and SWAPN, success from STOP and RETURN, and so on, never a bad jump; Fault only from a stuck step. |
| `EofSoundness.RunSafe` | lib/assigner/evmone/baseline.hpp:230-251 | Type soundness over whole runs, through nested CALLF frames and JUMPF tail calls, for every sequence of outside answers; a run that stops does so in a sound step. |
| `EofSoundness.ProgramSafe` | lib/assigner/evmone/baseline.hpp:230-251 | From the initial state: the position is always an instruction start, the height is frame base plus the validator's height, base plus maximum is at most 1024; a run that stops does so at some step in one of the excused ways. |
| `EofSoundness.ProgramFaultsExactly` | lib/assigner/evmone/instructions.hpp:1092-1131 | A run of validated code has the outcome Fault if and only if it executes, past the requirements check, an indexed DUP or SWAP that leads outside the stack array, or a PUSH5 or PUSH6 with fewer than eight bytes after it. |
| `EofSoundness.FaultFreeRuns` | lib/assigner/evmone/baseline.hpp:230-251 | If no instruction start of the program is an indexed DUP or SWAP or such a push, no run has the outcome Fault, whatever immediates contain. |
| `EofSoundness.ProgramTerminates` | lib/assigner/evmone/baseline.hpp:230-251 | If the host gives no gas back, validated code stops within gas * (|code| + 1) + |code| steps. |
| `EofSoundness.CallReturns` | lib/assigner/evmone/instructions.hpp:1563-1595 | Return discipline over runs: when control first leaves a call made by CALLF it resumes three bytes after it, with height less inputs plus outputs and the return stack restored. |
| `EofSoundness.ReturnHasCaller` | lib/assigner/evmone/instructions.hpp:1590-1595 | At every reachable RETF the return stack is non-empty. |
| `EofContainer.AcceptedProgram` | lib/assigner/evmone/baseline.cpp:64-77 | Every valid container, of any size, yields a well-typed program whose sections lie where the interpreter looks for them, with the heights of all control-flow paths. |
| `EofContainer.DataIsTail` | lib/assigner/evmone/eof.hpp:53-58 | The data section that DATALOADN reads is the end of the container, if the last code section starts below 65536. |
| `EofContainer.AcceptedContainerSafe` | lib/assigner/evmone/eof.cpp:605-625 | End to end: every run of a container the validator accepts stays inside it at instruction starts and validated heights, and ends, if it ends, in one of the excused ways, each status with the instructions that can cause it. |
| `EofContainer.AcceptedFaultsExactly` | lib/assigner/evmone/instructions.hpp:1092-1131 | The exact condition for the outcome Fault in runs of accepted containers, of any size. |
| `MemorySafety.ProgramAccessesExactly` | lib/assigner/evmone/instructions.hpp:1092-1195 | A step of validated code, host instructions aside, accesses a byte, stack slot, table entry or return address that does not exist if and only if it is an over-reading PUSH5 or PUSH6, a PUSH2 to PUSH31 on too few items, or an indexed DUP or SWAP that leads outside the stack array. |
| `MemorySafety.AcceptedAccessesExactly` | lib/assigner/evmone/instructions.hpp:1092-1195 | The same for every container the validator accepts. |
| `MemorySafety.DeepProgramSafe` | lib/assigner/evmone/eof.cpp:342-485 | A condition that the validator's own heights decide: with no over-reading push and no indexed DUP or SWAP, and enough validated items below every push, no run accesses anything outside. |
| `Accesses.InsideExactly` | lib/assigner/evmone/instructions.hpp:1092-1195 | For any instruction whose operands validation or the requirements check has made ready: all elements on its list exist exactly when none of the three cases applies. |
| `Limits.OverReadingFaults` | lib/assigner/evmone/instructions.hpp:1092-1123 | The input: an accepted container of 26 bytes, PUSH5 and STOP at its end, whose first step reads past it. |
| `Samples.CallingAccepted` | lib/assigner/evmone/eof.cpp:372-386 | The input: a container that calls a section with an item below the arguments is accepted. |
| `EofContainer.AcceptedCallReturns` | lib/assigner/evmone/instructions.hpp:1563-1595 | The return discipline for accepted containers: after a CALLF control resumes three bytes on, at the height less inputs plus outputs. |
| `EofContainer.AcceptedReturnHasCaller` | lib/assigner/evmone/instructions.hpp:1590-1595 | At every RETF reached in an accepted container the return stack is non-empty. |
| `EofContainer.AnalyzeEof1` | lib/assigner/evmone/baseline.cpp:64-77 | The analysis method builds exactly the environment the soundness theorem speaks of. |
| `EofContainer.ExecuteContainer` | lib/assigner/include/assigner.hpp:84-103 | Analysis and dispatch of a container end whenever the step function's run halts, in its state, with its status, gas and trace. |
| `EofContainer.AcceptedHalts` | lib/assigner/evmone/baseline.hpp:230-251 | Runs of accepted containers without an indexed DUP or SWAP or an over-reading push at an instruction start halt, if the host gives no gas back. |
| `ExecutionState.ExecutionState.PushData` | lib/assigner/evmone/instructions.hpp:1100-1131 | PUSH in place: limb-wise loads, which may read past the data, put exactly the big-endian word of the data on the stack, with one or Len records; words in front of the stack array are arbitrary, each on its own. |
| `ExecutionState.ExecutionState.RecordTop` | lib/assigner/evmone/instructions.hpp:1125-1128 | The loop over the top slots makes exactly the records of the step function, below the bottom of the stack included. |
| `ExecutionState.ExecutionState.CheckMemory` | lib/assigner/evmone/instructions.hpp:91-107 | The memory check on the live buffer and gas counter equals its specification, and success covers the access. |
| `ExecutionState.ExecutionState.StoreBytes` | lib/assigner/include/zkevm_word.hpp:223-227 | The byte loop of a store changes the buffer to the specified contents and nothing else. |
| `ExecutionState.ExecutionState.Require` | lib/assigner/evmone/baseline.hpp:98-137 | check_requirements by reference: the first failed check in order, and the gas counter afterwards. |
| `ExecutionState.ExecutionState.Invoke` | lib/assigner/evmone/baseline.hpp:192-228 | Fetch, check and execute on the live state equal one step of the step function, whose results and records Effects and Records state. |
| `ExecutionState.ExecutionState.Dispatch` | lib/assigner/evmone/baseline.hpp:230-251 | The unbounded loop ends whenever the run of the step function halts, exactly there; nothing is assumed of gas or host. |
| `LegacyCode.AnalyzeJumpdests` | lib/assigner/evmone/baseline.cpp:23-41 | The bitmap marks i if and only if byte i is 0x5b and an instruction start of the linear decode (Yellow Paper section 9.4.3). |
| `LegacyCode.PadCode` | lib/assigner/evmone/baseline.cpp:43-55 | The buffer is the code followed by 33 STOP bytes. |
| `LegacyCode.NoEofInstruction` | lib/assigner/evmone/baseline_instruction_table.cpp:25-38 | In legacy code no EOF-only instruction passes the check in any revision; DUPN and SWAPN do in Prague. |
| `LegacyCode.LegacyStepSafe` | lib/assigner/evmone/baseline.hpp:230-251 | One step of arbitrary code: position within 0..n+32, height within 0..1024, jumps only to marked destinations, Fault only at an indexed DUP or SWAP that leads outside the stack array. |
| `LegacyCode.LegacyStepAligned` | lib/assigner/evmone/baseline.hpp:230-251 | A step from an instruction start lands on one if and only if it is not a DUPN or SWAPN whose immediate byte reads as a PUSH with data in the code. |
| `LegacyCode.JumpEffect` | lib/assigner/evmone/instructions.hpp:978-1006 | JUMP and JUMPI in legacy code: on past a JUMPI exactly if the low 64 bits of its condition are zero, else to the destination if it is marked, else a bad destination. |
| `Samples.NotTaken` | lib/assigner/evmone/instructions.hpp:999-1006 | The input: 60 00 60 06 57 00 5b fe does not jump and halts successfully at byte 5, in every revision. |
| `LegacyCode.LegacyRunSafe` | lib/assigner/evmone/baseline.hpp:230-251 | The bounds over whole runs from any code; before Prague every position below n is an instruction start, and code without 0xa6 and 0xa7 at instruction starts never has the outcome Fault, whatever push data contains. |
| `LegacyCode.LegacyFaultsExactly` | lib/assigner/evmone/instructions.hpp:1133-1195 | A run of any legacy code has the outcome Fault if and only if it executes, past the check, an indexed DUP or SWAP that leads outside the stack array. |
| `MemorySafety.LegacyAccessesExactly` | lib/assigner/evmone/instructions.hpp:1092-1195 | A step of any legacy code, host instructions aside, accesses something outside its array if and only if it is a PUSH2 to PUSH31 on too few items or an indexed DUP or SWAP that leads outside the stack array. |
| `MemorySafety.TameCodeSafe` | lib/assigner/evmone/instructions.hpp:1092-1195 | Legacy code without PUSH2 to PUSH31 and indexed DUP and SWAP at instruction starts accesses nothing outside. |
| `Limits.ShallowPush` | lib/assigner/evmone/instructions.hpp:1125-1128 | The input: 61 00 01 from the start of legacy code, in any revision, reads slot -1, records it as slot 0xffff and goes on. |
| `LegacyCode.PragueEntersPushData` | lib/assigner/evmone/instructions.hpp:1201-1218 | The limit: started on 97 times PUSH0 and e6 60 5b with 197 gas, the run is after 98 steps at byte 99, push data to the jump analysis. |
| `LegacyCode.LegacyTerminates` | lib/assigner/evmone/baseline.hpp:230-251 | If the host gives no gas back, legacy code stops within gas * (n + 34) + n + 33 steps, although LOG1 and SSTORE have base cost 0. |
| `LegacyCode.ExecuteLegacy` | lib/assigner/include/assigner.hpp:84-103 | Analysis and dispatch of legacy code end whenever the step function's run halts, in its state, with its status, gas and trace. |
| `LegacyCode.LegacyHalts` | lib/assigner/evmone/baseline.hpp:230-251 | Runs of code without 0xa6 and 0xa7 at instruction starts halt, if the host gives no gas back. |
| `BytecodeTable.ProcessBytecode` | lib/assigner/include/bytecode.hpp:70-107 | The countdown decoder: for j >= 1 row j is an opcode row exactly if byte j-1 after the header byte is an instruction start, and a 0x5b opcode row exactly if jump analysis marks it; push size, running linear combination and the wrapping length counter are exact. |
| `BytecodeTable.RlcIsBase15` | lib/assigner/include/bytecode.hpp:70-107 | The running combination of a row is the number with the bytes so far as digits in base 15, the first one leading, reduced by the field order. |
| `RwTrace.SortIsSorting` | lib/assigner/include/rw.hpp:188 | Sorting permutes the trace and orders it by the record order. |
| `RwTrace.GroupOrder` | lib/assigner/include/rw.hpp:35-42 | In the sorted trace the rows of one cell are contiguous and in execution order. |
| `RwTrace.OfflineMemoryCheck` | lib/assigner/include/rw.hpp:188-270 | For every numbered trace and initial memory: each read has the value of the latest earlier write to its cell if and only if, in the sorted rows, each non-first read row repeats the row above and each first read row the initial value. |
| `RwTrace.SomeMemoryExplains` | lib/assigner/include/rw.hpp:188-270 | Without fixing the initial memory: some memory explains the trace if and only if the neighbour check passes. |
| `RwColumns.ChunkIsDigit` | lib/assigner/include/rw.hpp:211-240 | The bitwise AND with the shifted mask, shifted back, is the base-65536 digit. |
| `RwColumns.ChunkOrder` | lib/assigner/include/rw.hpp:211-240 | The order of wide words is the lexicographic order of their chunks. |
| `RwColumns.ColumnsFollowOrder` | lib/assigner/include/rw.hpp:170-186 | Smaller records have lexicographically smaller sorting columns; the first difference lies in the last two columns exactly if the cells are equal. |
| `RwTable.Table.FillChunks` | lib/assigner/include/rw.hpp:219-233 | The loop ANDs with a mask that moves down 16 bits a round; it writes exactly the chunks, most significant first, and nothing else. |
| `RwTable.Table.FillBits` | lib/assigner/include/rw.hpp:205-209 | The loop with the one-bit mask writes exactly the bits, most significant first, and nothing else. |
| `RwTable.Table.FindDifference` | lib/assigner/include/rw.hpp:245-251 | The search over table cells finds the first differing sorting column. |
| `RwTable.Table.FillAdvice` | lib/assigner/include/rw.hpp:243-283 | One row of carried values, flags, index bits, difference and inverse, and the IS_LAST flag of the row above; every other cell is unchanged. |
| `RwTable.Table.ProcessRwOperations` | lib/assigner/include/rw.hpp:122-285 | The finished table, cell by cell, for any numbered trace, leaving other rows alone; and read back without any specification of the rows: RW_ID is a permutation of 0 to n - 1, and each row is the record of that number. |
| `RwTable.TableReadsBack` | lib/assigner/include/rw.hpp:188-241 | OP, ID, RW_ID and IS_WRITE of a row are its record's fields, ADDRESS its address modulo 2^192, the HI and LO pairs its key and value; the chunk columns joined are ID, ADDRESS, key and RW_ID, and the selectors OP in binary; every record has exactly one row. |
| `RwTable.NeighboursIncrease` | lib/assigner/include/rw.hpp:243-251 | Consecutive sorted rows increase strictly in lexicographic order. |
| `RwTable.OrderingAdvice` | lib/assigner/include/rw.hpp:260-283 | diff_ind is at most 31 and encoded by the five INDICES bits, DIFFERENCE lies in 1..65535 in the field, and INV_DIFFERENCE is its inverse. |
| `RwTable.FirstFlag` | lib/assigner/include/rw.hpp:265-270 | IS_FIRST is set exactly on the first row of a cell's group, and IS_LAST exactly on the row before it. |
| `RwTable.CarriedValue` | lib/assigner/include/rw.hpp:252-258 | VALUE_BEFORE is the value_prev of the group's first row, for every group not containing row 0. |
| `RwTable.TableDecidesConsistency` | lib/assigner/include/rw.hpp:188-283 | On the table's own cells: the neighbour check passes in every row if and only if some initial memory explains every read of the trace. |
| `TraceConsistency.GoodAppend` | lib/assigner/include/rw.hpp:90-101 | A consistent trace stays consistent under an appended record exactly if it is a write or repeats the replayed value. |
| `TraceConsistency.PushDataKept` | lib/assigner/evmone/instructions.hpp:1125-1128 | PUSH of every length keeps the agreement of trace and state, in spite of its extra records. |
| `TraceConsistency.PushRecordsInside` | lib/assigner/evmone/instructions.hpp:1125-1128 | Those extra records name live slots if and only if the stack is deep enough; otherwise the 16-bit slot number wraps. |
| `TraceConsistency.MStoreKept` | lib/assigner/evmone/instructions.hpp:941-957 | After a store of any width the 32 records bring the replayed memory back to the live one. |
| `TraceConsistency.MulModTraceExact` | lib/assigner/evmone/instructions.hpp:334-344 | MULMOD keeps the agreement of trace and state if and only if the modulus is zero. |
| `TraceConsistency.SwapTraceExact` | lib/assigner/evmone/instructions.hpp:1187-1194 | SWAP1-16 keep the agreement if and only if the two words are equal. |
| `TraceConsistency.SwapThenDup` | lib/assigner/evmone/instructions.hpp:1187-1194 | A step of SWAPn with two different words and a step of DUPn+1: no initial memory whatever explains the resulting trace or any continuation of it. |
| `Limits.SwapUnexplained` | lib/assigner/evmone/instructions.hpp:1187-1194 | The input: 60 01 60 02 90 81 from the start of legacy code, in any revision, leaves a trace that nothing explains. |
| `TraceConsistency.MulModThenDup` | lib/assigner/evmone/instructions.hpp:334-344 | A step of MULMOD with a modulus other than zero and a step of DUP1: no initial memory explains the trace or any continuation. |
| `Limits.MulModUnexplained` | lib/assigner/evmone/instructions.hpp:334-344 | The input: 60 05 60 02 60 03 09 80 from the start of legacy code, in any revision. |
| `TraceConsistency.SwapAtTraceExact` | lib/assigner/evmone/instructions.hpp:1160-1195 | The indexed SWAP keeps the agreement if and only if the two words are equal. |
| `TraceConsistency.StepKept` | lib/assigner/evmone/baseline.hpp:192-251 | Every step outside host instructions keeps replayed trace, stack and memory in agreement, unless it is a MULMOD with a modulus other than zero, a SWAP of different words, or an indexed DUP of a stale word. |
| `TraceConsistency.RunKept` | lib/assigner/evmone/baseline.hpp:230-251 | Whole runs of such steps, of legacy or EOF code, produce numbered, time-consistent traces from blank memory that replay to the live state. |
| `TraceConsistency.KeptGood` | lib/assigner/evmone/baseline.hpp:230-251 | A run that halts, for whatever reason, also leaves a numbered, time-consistent trace. |
| `TraceConsistency.GoodFits` | lib/assigner/include/rw.hpp:90-101 | Such traces meet all side conditions of the table theorems. |
| `TraceConsistency.HandleRw` | lib/assigner/include/assigner.hpp:60-67 | The table filled from a good trace passes the neighbour check in every row and gives the trace back in the order of its RW_ID column. |
| `Assigner.LegacyRecordsAlong` | lib/assigner/evmone/baseline.hpp:230-251 | A condition on the code: legacy code without host instructions, MULMOD, SWAP1-16, indexed DUP or SWAP at an instruction start (at any byte, in Prague code that can skip a PUSH) executes only instructions that record what they do. |
| `Assigner.AcceptedRecordsAlong` | lib/assigner/evmone/baseline.hpp:230-251 | The same for the sections of accepted containers. |
| `Assigner.AlongIsFaithful` | lib/assigner/evmone/baseline.hpp:230-251 | Such runs are of the kind that RunKept is about. |
| `Assigner.StepPaysForRecords` | lib/assigner/evmone/instructions_traits.hpp:35-201 | A continuing step makes at most 34 records for each unit of gas it spends, in every revision, although some opcodes are free; a halting one makes at most two. |
| `Assigner.RunPaysForRecords` | lib/assigner/evmone/baseline.hpp:230-251 | Over whole runs of either format 34 times the gas pays for every record, so 32-bit record numbers suffice below 126 million gas. |
| `Assigner.EvaluateAndAssign` | lib/assigner/include/assigner.hpp:84-112 | From code to circuit in one method, for legacy code and containers: code meeting the condition is analysed and executed, its trace sorted and put into the table, from which it can be read back, and every row passes the neighbour check. |
| `MemoryGas.Memory.Grow` | lib/assigner/evmone/execution_state.hpp:95-117 | The buffer after growth, through reallocation or reuse of dirty bytes, is the old contents extended by zeros; capacity stays a multiple of the page size and never shrinks. |
| `MemoryGas.Memory.Clear` | lib/assigner/evmone/execution_state.hpp:120 | After clear the buffer reads as empty memory although it keeps its bytes. |
| `MemoryGas.Memory.Check` | lib/assigner/evmone/instructions.hpp:91-107 | grow_memory and check_memory in place equal their specification on contents and gas. |
| `MemoryGas.TouchCorrect` | lib/assigner/evmone/instructions.hpp:197-229 | A check charges exactly the rise in total cost, keeps old bytes, adds zeros, and on success covers the whole access. |
| `MemoryGas.TouchExact` | lib/assigner/evmone/instructions.hpp:197-229 | A check passes if and only if the low 64 bits of the offset are below 2^32 and the gas covers the price of the words to come less that of the words there; memory then ends in the word that holds the last byte. |
| `MemoryGas.MemoryPrices` | lib/assigner/evmone/instructions.hpp:91-107 | The price in numbers at 22, 23, 1024 and 32768 words. |
| `MemoryGas.CostFitsInt64` | lib/assigner/evmone/instructions.hpp:91-107 | No intermediate value of the cost computation leaves int64. |
| `MemoryGas.MemoryGasTelescopes` | lib/assigner/evmone/instructions.hpp:91-107 | However a sequence of accesses grows memory, the gas charged is 3w + w*w/512 of the final word count less that of the initial one, and the final count depends only on the furthest access. |
| `MemoryGas.Memory.HashRecords` | lib/assigner/evmone/instructions.hpp:537-558 | KECCAK256 up to its records: after the check, some of the 32 bytes read lie past the allocated block exactly when memory fills the block and hashing starts in its last 31 bytes. |
| `MemoryGas.HashAtPageEnd` | lib/assigner/evmone/instructions.hpp:537-558 | The input: one byte at offset 4095 of fresh memory. |
| `MemoryGas.MoveCovered` | lib/assigner/evmone/instructions.hpp:1242-1262 | The check of MCOPY covers both ranges if both operands are below 2^64. |
| `MemoryGas.MoveUncovered` | lib/assigner/evmone/instructions.hpp:1242-1262 | The input: a destination of 2^64 passes as offset 0 and leaves the source range unchecked. |
| `Words.LoadStored` | lib/assigner/include/zkevm_word.hpp:223-227 | Loading the big-endian bytes of a value gives the value modulo 256^n. |
| `Words.StoreLoaded` | lib/assigner/include/zkevm_word.hpp:65-73 | Storing the value of n bytes gives the same n bytes. |
| `Words.FromBytesConcat` | lib/assigner/include/zkevm_word.hpp:223-250 | Big-endian: the value of two strings one after the other is that of the first times 256 to the length of the second, plus that of the second. |
| `Words.MemoryRoundTrip` | lib/assigner/evmone/instructions.hpp:923-957 | A 256-bit store followed by a load at the same address returns the word and changes no other byte. |
| `Words.PartialIsExact` | lib/assigner/include/zkevm_word.hpp:229-250 | A partial limb load of len bytes, which reads up to three bytes more, is the big-endian value of exactly len bytes. |
| `Words.LoadPushData` | lib/assigner/evmone/instructions.hpp:1100-1123 | For every Len in 1..32 the limb-wise loads of push put the big-endian value of the Len data bytes on the stack. |
| `StorageGas.HostStatusExact` | lib/assigner/include/vm_host.hpp:77-94 | The host's three statuses agree with the evmc.h classification exactly for unchanged present slots and clean non-zero modifications. |
| `StorageGas.FitsInt16` | lib/assigner/evmone/instructions.hpp:152-190 | No table entry is truncated by int16_t, and every write costs gas. |
| `StorageGas.FirstWritePrices` | lib/assigner/evmone/instructions.hpp:119-190 | The first change of a slot in numbers: 20000 to make it, 5000 to change or clear it with the cold access included from Berlin on, and 15000 or from London on 4800 given back for clearing. |
| `StorageGas.LaterWritePrices` | lib/assigner/evmone/instructions.hpp:119-190 | A further change of a slot costs a warm access: 200, 800, or 100 from Berlin on. |
| `StorageGas.PlainPrices` | lib/assigner/evmone/instructions.hpp:152-171 | Without net metering: 20000 to fill an empty slot, else 5000, and 15000 back for emptying a full one. |
| `StorageGas.StoreExact` | lib/assigner/evmone/instructions.hpp:1708-1745 | A write goes through if and only if more than 2300 gas is left from Istanbul on, and enough to pay for it. |
| `StorageGas.WriteMovesPotential` | lib/assigner/evmone/instructions.hpp:172-186 | One net-metered write charges, less its refund, the warm access plus the change of a potential of original and current value. |
| `StorageGas.NetMeteringTelescopes` | lib/assigner/evmone/instructions.hpp:1708-1745 | For every net-metered revision, any interleaving of writes to any slots and any host answers about cold access: gas less refund is k warm accesses, the cold surcharges, and the difference of the summed potentials (EIP-2200, Specification). |
| `StorageGas.FinalValuesDecide` | lib/assigner/evmone/instructions.hpp:1708-1745 | From a clean start the bill depends only on the number of writes, the cold ones among them, and the final values. |
| `StorageGas.ColdHostBill` | lib/assigner/include/vm_host.hpp:200-206 | With this host, which always answers cold: k times warm plus cold cost, and the potential of the final values. |
| `StorageGas.ColdOnce` | lib/assigner/evmone/instructions.hpp:1708-1745 | With a host that warms a slot at its first access, the surcharge is paid once for each slot written. |
| `StorageGas.RefundNonNegative` | lib/assigner/evmone/instructions.hpp:1708-1745 | The running refund total never falls below its start, in any revision. |
| `StorageGas.StorageMeter.SStore` | lib/assigner/evmone/instructions.hpp:1708-1745 | SSTORE in place, with the host's cold answer: static mode, the 2300 sentry, cold surcharge, charge and refund; the value is stored before the gas check can fail. |
| `CallGas.CallConserves` | lib/assigner/evmone/instructions.hpp:1350-1468 | One call with any callee: the caller's gas stays within 0 and what it was, keeps at least a 64th after surcharges from Tangerine Whistle on, and the 9000 surcharge covers the 2300 stipend. |
| `CallGas.CallConservesExactly` | lib/assigner/evmone/instructions.hpp:1412-1468 | With no assumption on the operand: a call conserves gas for every callee if and only if the operand, read as signed, does not undercut the surcharges paid. |
| `CallGas.CoveredCall` | lib/assigner/evmone/instructions.hpp:1350-1468 | Under that condition the caller's gas stays between zero and what it was, negative messages included. |
| `CallGas.NegativeOperandMints` | lib/assigner/evmone/instructions.hpp:1412-1415 | A prepared stack with an operand above 2^63 with which a failing callee hands the caller 5000 gas. |
| `CallGas.CallBill` | lib/assigner/evmone/instructions.hpp:1350-1410 | The surcharges item by item: 2500 for a cold account from Berlin on, memory, 9000 for value, 25000 for a CALL that makes an account. |
| `CallGas.CallAffordable` | lib/assigner/evmone/instructions.hpp:1350-1410 | Without input and output a call fails there if and only if it sends value in static mode or the gas is below that bill. |
| `CallGas.MessageExact` | lib/assigner/evmone/instructions.hpp:1412-1457 | The gas of the message: what is asked for, at most all but one 64th of the rest, rounded down, plus 2300 with value; the call returns at once exactly at depth 1024, with too low a balance, or when refused. |
| `CallGas.CreateBill` | lib/assigner/evmone/instructions.hpp:1487-1553 | The bill, the failures and the message gas of a creation. |
| `CallGas.ReturnedGas` | lib/assigner/include/assigner.hpp:110 | A run that halts in success or revert gives back exactly its gas counter, any other outcome nothing. |
| `CallGas.CalleePaidFor` | lib/assigner/evmone/instructions.hpp:1459-1468 | A call whose callee halts in success or revert costs the caller, beyond its surcharges, exactly what the callee spent; any other end costs the whole message. |
| `Samples.RevertGivesBack` | lib/assigner/include/assigner.hpp:110 | The input: 60 00 60 00 fd returns all but six units of its gas. |
| `CallGas.NegativeGasFails` | lib/assigner/include/assigner.hpp:101-116 | An execution entered with negative gas fails and returns none. |
| `CallGas.CreateConserves` | lib/assigner/evmone/instructions.hpp:1487-1553 | Creation conserves gas and keeps a 64th, with init code limits and costs by revision. |
| `CallGas.GasConserved` | lib/assigner/include/assigner.hpp:101-116 | Whole call trees, every frame a run of the interpreter: evaluate returns between 0 and msg.gas if no CALL-family gas operand undercuts zero by more than the surcharges paid. |
| `Minting.MintsGas` | lib/assigner/evmone/instructions.hpp:1412-1468 | The condition is needed: a consistent tree of 22 bytes of code that calls itself and returns 14 more units of gas than it was given. |
| `CallGas.DepthBounded` | lib/assigner/evmone/instructions.hpp:1432-1433 | No frame of a call tree lies deeper than 1024. |
| `CallGas.LeafConsistent` | lib/assigner/include/vm_host.hpp:244-273 | Every run of legacy code without a call or creation at an instruction start is such a tree. |
| `CallGas.Evaluate` | lib/assigner/include/assigner.hpp:84-116 | evaluate: analysis and dispatch, whenever the run halts; the status returned is that of the run, with success and revert the gas is its counter, with any other status 0. |
| `Evaluation.BuildConsistent` | lib/assigner/include/vm_host.hpp:244-302 | For every host and every legacy code, the tree of executions made step by step, each call running the recipient's code one level down, is a consistent call tree. |
| `Evaluation.EvaluationHalts` | lib/assigner/include/assigner.hpp:84-116 | The recursion evaluate, call_impl, handle_call, evaluate terminates for every host and all legacy code in which no CALL-family gas operand undercuts zero by more than the surcharges paid: each execution of the tree ends within gas * (n + 34) + n + 34 steps and returns between 0 and all of its gas. |
| `Minting.NeverEnds` | lib/assigner/evmone/baseline.hpp:230-251 | The condition is needed: 26 bytes of code whose execution, in a consistent tree in which every nested execution has failed, goes on after any number of steps. |
| `VmHost.TransferExact` | lib/assigner/include/vm_host.hpp:258-264 | A transfer conserves the total balance exactly if it stays in one account, is covered, or wraps around on both sides. |
| `VmHost.CallConserved` | lib/assigner/include/vm_host.hpp:244-273 | The total balance is conserved through a call whatever the executed code asks for: self-calls, new accounts, failures, nesting; only the check made before the call is assumed. |
| `VmHost.CreateConserved` | lib/assigner/include/vm_host.hpp:275-302 | The same for creation, which moves no value. |
| `VmHost.MessageCovered` | lib/assigner/evmone/instructions.hpp:1436-1457 | The balance check of call_impl establishes what the host assumes, for all four call opcodes. |
| `VmHost.CallMoves` | lib/assigner/include/vm_host.hpp:244-273 | A covered call moves its value before any code runs: the sender falls, the recipient rises, every other account and all code stay, a call to oneself changes nothing, and without code the call succeeds with just that. |
| `VmHost.OthersMoveNothing` | lib/assigner/include/vm_host.hpp:244-273 | Other kinds of message move nothing, and none from an unknown sender does anything. |
| `VmHost.RequestEffect` | lib/assigner/evmone/instructions.hpp:1350-1468 | The four call instructions that pass their checks: what the code they run sees, in whose name and at which depth it runs, and that only CALL moves value. |
| `VmHost.RefusedRequest` | lib/assigner/evmone/instructions.hpp:1432-1441 | A request at depth 1024 or without the balance changes nothing. |
| `VmHost.CreateEffect` | lib/assigner/include/vm_host.hpp:275-302 | Creation fails at an address in use; otherwise the account starts empty, its init code runs, and on success its output becomes the code while the balance stays. |
| `VmHost.CreateRequestEffect` | lib/assigner/evmone/instructions.hpp:1524-1553 | A creation that passes its checks is made one level down in the name of the executing account. |
| `VmHost.VMHost.Call` | lib/assigner/include/vm_host.hpp:244-273 | handle_call in place: the accounts after it are those of HandleCall, which CallMoves and OthersMoveNothing describe, and their total is conserved. |
| `VmHost.VMHost.Create` | lib/assigner/include/vm_host.hpp:275-302 | handle_create in place. |
| `VmHost.VMHost.Evaluate` | lib/assigner/include/vm_host.hpp:268-272 | The nested requests of executed code in order. |

## Left out

- TraceConsistency.RunKept: external instructions (KECCAK256, copies, SLOAD and SSTORE, EXP, CALL and CREATE families, balances and code of accounts, LOG1 topics) are outside the run theorem; several of them record cells they did not touch, or do not record cells they did.
- ExecutionState.ExecutionState.PushData: a read in front of a shallow stack gives an arbitrary word and the step goes on; that it leaves the array is what `LegacyAccessesExactly` and `AcceptedAccessesExactly` say.
- MemorySafety.ProgramAccessesExactly: of host instructions only the operands are covered; what they do to memory, input and output buffers is outside, except for KECCAK256 and MCOPY in MemoryGas.
- Limits.OverReadingFaults: what the eight-byte load finds past the container, if anything, is not modelled.
- EofSoundness.ProgramTerminates: assumes that no outside answer gives gas back; for nested calls `EvaluationHalts` has the exact condition, and `NeverEnds` a program that violates it.
- EofStackHeight.ValidateMaxStackHeight: for JUMPF with a required height above 127 the int8 cast makes the validator stricter than EIP-6206; the model has the cast, and no completeness with respect to the EIP is claimed.
- CallGas.GasConserved: the sum gas_left - gas_used is an unbounded integer here; with operands near 2^63 the source overflows int64.
- Evaluation.EvaluationHalts: memory, results and balances of a call are the host's replies; only gas, code and depth link an execution to its caller.
- StorageGas.StorageMeter.SStore: key and value are parameters rather than stack items, and the three trace records of SSTORE are not made.
- VmHost.VMHost.Evaluate: executed code is the list of requests it makes of the host, not byte code.
- VmHost.CallConserved: executed code appears as the list of requests it makes of the host; addresses of created accounts are given, not computed.
- RwTable.Table.ProcessRwOperations: the field is an abstract prime order with inverses; its width is not modelled, and std::sort is a specification-level insertion sort.
- MemoryGas.Memory.AllocateCapacity: failure of realloc, which terminates the program, is not modelled.
- ExecutionState.ExecutionState.External: the effects of host instructions on stack, memory and trace are given by the environment; only their stack arity and gas charge are modelled here.
- Full arithmetic of SIGNEXTEND, SAR, signed division, shifts and bitwise operators: results are parameters.
- Storage maps, transient storage, logs, self-destruct, return data and output buffers.
- Keccak, contract address calculation, the bytecode hash halves and the field inversion algorithm.
- Call identifiers are always 0 in the source; the trace theorems take any one identifier.
- EVMC wrappers, VM and Result ownership, string conversion, logging, the build system and environment getters.
