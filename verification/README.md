# PLCrashReporter unwinder in Dafny

A model of the unwinder under `source/Classes/CrashReporter/`: the call-frame state and its interpreter, the lock-free
image list, the compact unwind reader, the bump allocator, the DWARF readers, the buffered log writer and the Objective-C
class cache, with proofs of what they promise. `dafny verify dfyconfig.toml` checks all of it.

Code that changes fields or arrays in place is a class or a method over arrays here, proved against a specification on
values; the properties are lemmas about that specification. Code that several threads run is a state machine whose steps
are the single loads, stores and compare-and-swaps.

| files | component |
|---|---|
| `Common`, `Arithmetic`, `Bytes` | machine integers, error codes, division, fixed-size fields |
| `CfaTable` | the abstract call-frame state: a stack of (finite map, CFA rule) rows |
| `CfaPool`, `CfaRemoval`, `CfaEnumeration` | the pool of 100 entries, its chains and free list, as values |
| `CfaState`, `CfaIterator` | the classes `dwarf_cfa_state` and `dwarf_cfa_state_iterator` |
| `CfaProgram`, `CfaEvaluation` | call-frame programs: the pure interpreter, and `eval_program` on the class |
| `CfaAssembler` | the encoding of call-frame instructions, and programs as lists of instructions |
| `CfaTableRuns`, `CfaProgramTheorems`, `CfaStandard`, `CfaRefusals` | runs of table operations, runs of programs, DWARF 4 section 6.4.2, and what is refused |
| `CfaApply`, `CfaApplyOrder`, `CfaHistories` | `apply_state`, the order of its rules, and histories of calls that produce every order |
| `CfaRuleLaws`, `CfaMemory` | each kind of rule in DWARF 4 section 6.4.1, and instructions from their bytes to the words in memory |
| `UnwindersAgree` | the DWARF and the compact unwinder on one frame |
| `AsyncList`, `AsyncListSafety`, `AsyncListSteps` | `async_list` step by step, its invariant, and every step keeping it |
| `AsyncListRuns`, `AsyncListReaders`, `AsyncListNodes`, `AsyncListFind`, `AsyncListAccess` | what holds after any run: links, readers, nodes, removal by value, what each step goes through |
| `AsyncListProgress`, `AsyncListExample` | how many steps a writer takes, and runs from the empty list into the situations below |
| `CompactSearch`, `CompactTables` | `find_pc`, and sections that stand for lists of functions |
| `CompactCodec`, `CompactRegisters` | the permutation codec of register lists |
| `CompactFrame`, `CompactPrologue`, `CompactRefusals` | `cfe_entry_apply`, the prologues it undoes, and what it refuses |
| `Allocator`, `AllocatorThreads`, `AllocatorSizes` | layout and single-threaded allocation, any number of threads, and what their sizes say |
| `Leb128`, `OpStream` | LEB128 readers, and the opcode stream |
| `DwarfStack`, `ExpressionProgram`, `ExpressionEvaluation` | the expression stack machine |
| `ExpressionTrees` | compiled expressions, and termination |
| `ExpressionReference`, `ExpressionStandard` | DWARF 4 section 2.5.1, and where the source agrees with it |
| `EhPointer`, `FdeScan`, `FdeRecord` | GNU pointer encodings, the scan for the FDE of a PC, and FDE records |
| `CieRecord`, `CieLayout`, `FrameSections` | CIE records and their augmentation, FDEs with their CIE, and whole frame sections |
| `FdeInstructions` | the programs that are run from FDEs |
| `AsyncFile`, `ObjcCache` | the buffered log writer, and the class cache |

## Where the code is not what it is documented to be

The model does what the code does. Each of these is a lemma: an input that shows it, and the exact condition.

- `remove_register` does not leave its loop after a match. It goes on in the free list, and never ends if a free entry
  still carries the same register number (`CfaRemoval.RemovalEndsIff`, `CfaRemoval.DivergenceIsReachable`).
- `push_state` starts an empty table, where DW_CFA_remember_state saves a copy (DWARF 4 section 6.4.2.4). Inside a
  remember/restore pair the rows differ; outside of all pairs they agree (`CfaStandard.AgreesWithStandard`,
  `CfaStandard.RememberedStateDiffers`).
- `pop_state` does not give the entries of the discarded table back (`CfaTableRuns.EntriesConserved`).
- DW_CFA_restore_extended removes register 0 instead of its operand (`CfaStandard.RestoreExtendedAgreesIff` for the whole row,
  `CfaStandard.InstructionAgreesIff`).
- The instructions of an FDE are taken to start behind its address range. With an augmentation the FDE has augmentation data of
  its own there (Linux Standard Base Core Specification 4.1, section 10.6.1.2), and its size and data are run as instructions:
  no data as DW_CFA_nop, a pointer of four bytes as DW_CFA_advance_loc4 (`FdeInstructions.AugmentationIsRun`,
  `FdeInstructions.PointerHidesRules`, `FdeInstructions.ExampleHidesRule`).
- The size of a CIE's augmentation data goes over 64 bits without notice, so the initial instructions can start in the record's
  own header (`CieLayout.InstructionsRightIff`, `CieLayout.SizeLeadsBack`).
- An expression length above PL_VM_OFF_MAX can skip backwards, so a call-frame program may never end
  (`CfaProgramTheorems.ProgramsStop`, `CfaProgramTheorems.LoopingProgramRuns`); the same holds for entry lengths in the FDE
  scan (`FdeScan.ScanEndsIff`, `FdeScan.ScanEnds`, `FdeScan.GoesBackIff`, `FdeScan.LoopingSectionLoops`).
- A second rule for the instruction pointer in the bucket of the return-address rule, such as those of registers 15 and 1 on
  ARM, makes the result depend on the order in which rules were set (`CfaApplyOrder.OrderFreeIff`,
  `CfaApply.OrderMattersForTwoIpRules`, `CfaHistories.TwoHistories`).
- An FDE whose pointer is omitted ends the scan with ENOTFOUND (`FdeScan.NotFoundIff`, `FdeScan.OmitHidesFde`).
- DW_OP_bregx reads its register as a signed number (`ApigeePLCrashAsyncDwarfExpression.cpp:281`), where DWARF 4 section
  2.5.1.2 and the comment at `ApigeePLCrashAsyncDwarfExpression.hpp:517` have an unsigned one
  (`ExpressionStandard.DecodeAgreesIff`, `ExpressionStandard.Register64`).
- DW_OP_bregx falls through into DW_OP_dup; DW_OP_div is unsigned; DW_OP_pick and DW_OP_over succeed on a full stack
  without pushing; the comparisons are unsigned (`ExpressionStandard.ExecuteAgreesIff`,
  `ExpressionStandard.DivisionAgreesIff`, `ExpressionStandard.ComparisonAgreesIff`).
- A compressed entry is swapped twice, so its function base is wrong in a section of the other byte order
  (`CompactSearch.CompressedRightIff`). `cfe_reader_init` takes sections for x86 only, which are little-endian
  (`ApigeePLCrashAsyncCompactUnwindEncoding.c:64-74`), so this needs a big-endian host.
- Taking a node from the free list of `async_list` loses all other free nodes (`AsyncListNodes.RecyclingLeaks`,
  `AsyncListExample.FreeNodeLeaks`), and the free list is not deallocated when the last reader leaves
  (`AsyncListNodes.DeallocatedIff`). A node recycled under a reader leads that reader out of the list, or back to its head
  (`AsyncListReaders.ReaderLinkedIff`, `AsyncListExample.ReaderIsDiverted`, `AsyncListExample.ReaderIsLedBack`). Removal by
  value can take out another value (`AsyncListFind.RemovesValueIff`, `AsyncListExample.OtherValueIsRemoved`).
- The space check of the allocator may see another `next_addr` than the one that is swapped: blocks can then end behind the
  usable pages, and after that even overlap (`AllocatorSizes.AllRunsGoodIff`, `AllocatorThreads.ChecksCanOverrun`,
  `AllocatorThreads.BlocksCanOverlap`).
- A failed write leaves what it has written pending, so a retry writes bytes twice, beyond the limit too
  (`AsyncFile.FlushRetried`, `AsyncFile.WriteRetried`, `AsyncFile.RetryDuplicates`).
- The decoder of register lists leaves its first output unset for codes that no list has
  (`CompactRegisters.DecodeSetsAllIff`).

## Model

| member | source | states |
|---|---|---|
| `CfaStateClass.CfaState.constructor` | source/Classes/CrashReporter/ApigeePLCrashAsyncDwarfCFAState.cpp:84-107 | A new state is one row without rules and an undefined CFA, with all 100 entries free. |
| `CfaStateClass.CfaState.SetRegister` | source/Classes/CrashReporter/ApigeePLCrashAsyncDwarfCFAState.cpp:117-166 | The chain walk in the shared pool has the effect of setting one key of the current map; it fails exactly when the register is new and no entry is free. A new register is enumerated behind all those of buckets up to its own. |
| `CfaStateClass.CfaState.RemoveRegister` | source/Classes/CrashReporter/ApigeePLCrashAsyncDwarfCFAState.cpp:208-235 | Removes the key from the current map and puts the entry in front of the free list, for every register; tells exactly when its loop never ends. |
| `CfaStateClass.CfaState.GetRegisterRule` | source/Classes/CrashReporter/ApigeePLCrashAsyncDwarfCFAState.cpp:177-200 | Looks the register up in the current map. |
| `CfaStateClass.CfaState.GetRegisterCount` | source/Classes/CrashReporter/ApigeePLCrashAsyncDwarfCFAState.cpp:241-243 | The count is the size of the current map. |
| `CfaStateClass.CfaState.PushState` | source/Classes/CrashReporter/ApigeePLCrashAsyncDwarfCFAState.cpp:50-65 | Adds an empty row, or fails at the maximum depth; all saved rows stay as they are. |
| `CfaStateClass.CfaState.PopState` | source/Classes/CrashReporter/ApigeePLCrashAsyncDwarfCFAState.cpp:72-81 | Drops the current row without freeing its entries, or fails on the last row. |
| `CfaPool.AppendKeepsOk` | source/Classes/CrashReporter/ApigeePLCrashAsyncDwarfCFAState.cpp:142-165 | Moving the first free entry to the end of a bucket keeps the partition of the 100 entries, acyclic chains with distinct registers in the right bucket, and counts that match. |
| `CfaPool.FreedKeepsOk` | source/Classes/CrashReporter/ApigeePLCrashAsyncDwarfCFAState.cpp:214-234 | So does moving an entry of a chain to the front of the free list. |
| `CfaPool.PopKeepsOk` | source/Classes/CrashReporter/ApigeePLCrashAsyncDwarfCFAState.cpp:72-81 | After a pop the entries of the discarded table are abandoned; the rest of the partition and all other chains are intact. |
| `CfaRemoval.RemovalOutcome` | source/Classes/CrashReporter/ApigeePLCrashAsyncDwarfCFAState.cpp:208-235 | The removal loop, iteration by iteration as written, leaves the pool of the map without the register when it ends. |
| `CfaRemoval.RemovalEndsIff` | source/Classes/CrashReporter/ApigeePLCrashAsyncDwarfCFAState.cpp:214-234 | The loop ends if and only if the register has no rule or no free entry still carries its number. |
| `CfaRemoval.DivergenceIsReachable` | source/Classes/CrashReporter/ApigeePLCrashAsyncDwarfCFAState.cpp:117-235 | Six calls on a new state reach a removal that never ends. |
| `CfaTableRuns.PopRestoresPushedState` | source/Classes/CrashReporter/ApigeePLCrashAsyncDwarfCFAState.cpp:50-81 | Whatever is set, removed, pushed and popped above it, a pop restores the rows, counts and CFA rules of the matching push. |
| `CfaTableRuns.EntriesConserved` | source/Classes/CrashReporter/ApigeePLCrashAsyncDwarfCFAState.cpp:72-166 | Free entries, entries with rules and entries abandoned by pops always add up to the same number. |
| `CfaTableRuns.SetFailsOnlyWhenFull` | source/Classes/CrashReporter/ApigeePLCrashAsyncDwarfCFAState.cpp:142-146 | After any run, setting a register fails exactly when it is new and all 100 entries hold rules or are abandoned. |
| `CfaEnumeration.EnumerationComplete` | source/Classes/CrashReporter/ApigeePLCrashAsyncDwarfCFAState.cpp:308-341 | Bucket and chain order lists every rule of a table exactly once, bucket by bucket; there are at most 100. |
| `CfaIteratorClass.CfaStateIterator.Next` | source/Classes/CrashReporter/ApigeePLCrashAsyncDwarfCFAState.cpp:308-341 | Yields the rules of the current table one by one, and then false for ever. |
| `CfaEvaluation.CopyInitialState` | source/Classes/CrashReporter/ApigeePLCrashAsyncDwarfCFAStateEvaluation.cpp:98-113 | The copy has exactly the rules on entry; its out-of-memory exit is never taken. |
| `CfaEvaluation.EvalProgram` | source/Classes/CrashReporter/ApigeePLCrashAsyncDwarfCFAStateEvaluation.cpp:84-458 | For all bytes, `eval_program` on the pool ends with the location, rows and depth, or the error, of the pure interpreter. |
| `CfaAssembler.AssembledDecodes` | source/Classes/CrashReporter/ApigeePLCrashAsyncDwarfCFAStateEvaluation.cpp:202-457 | Wherever the encoding of an instruction stands (operands of any value that fits), it is read back as that instruction, with its offset times the data alignment in a word of the target, and the position ends behind it. |
| `CfaAssembler.AssembledRuns` | source/Classes/CrashReporter/ApigeePLCrashAsyncDwarfCFAStateEvaluation.cpp:188-457 | For every list of encodable instructions, the loop over its bytes ends as executing the list does: same location, rules and CFA, or same error, and it stops before the first instruction above a non-zero pc. |
| `CfaMemory.OffsetRestores` | source/Classes/CrashReporter/ApigeePLCrashAsyncDwarfCFAStateEvaluation.cpp:342-352 | From the bytes to memory: after DW_CFA_offset r, n in any of its encodings and `apply_state`, the register holds the word at the CFA plus n times the data alignment; the rule is set unless all entries are taken. |
| `CfaMemory.ValOffsetRestores` | source/Classes/CrashReporter/ApigeePLCrashAsyncDwarfCFAStateEvaluation.cpp:354-361 | After DW_CFA_val_offset it holds that address itself. |
| `CfaMemory.RegisterRestores` | source/Classes/CrashReporter/ApigeePLCrashAsyncDwarfCFAStateEvaluation.cpp:362-365 | After DW_CFA_register it holds what the other register holds now. |
| `CfaMemory.DefineCfaGives` | source/Classes/CrashReporter/ApigeePLCrashAsyncDwarfCFAStateEvaluation.cpp:229-236 | After DW_CFA_def_cfa, plain or factored, the CFA is the register plus the offset in a word, and it is the caller's stack pointer. |
| `CfaRefusals.RefusedIff` | source/Classes/CrashReporter/ApigeePLCrashAsyncDwarfCFAStateEvaluation.cpp:188-457 | An instruction is refused for its bytes if and only if its opcode is not known or an operand cannot be read, with the error of the first such operand. |
| `CfaStandard.FailsIff` | source/Classes/CrashReporter/ApigeePLCrashAsyncDwarfCFAStateEvaluation.cpp:188-457 | An instruction fails if and only if the standard gives it no meaning, all entries or saved rows are taken, or it removes a rule whose number a free entry carries; each with its error. |
| `CfaProgramTheorems.ProgramsStop` | source/Classes/CrashReporter/ApigeePLCrashAsyncDwarfCFAStateEvaluation.cpp:188-457 | A program stops within one step per byte and one more, unless it comes to a rule whose expression skips back to its own opcode or before it. |
| `CfaProgramTheorems.SkipsBackIsLong` | source/Classes/CrashReporter/ApigeePLCrashAsyncDwarfCFAStateEvaluation.cpp:366-401 | Only lengths above PL_VM_OFF_MAX lead back. |
| `CfaProgramTheorems.LoopingProgramRuns` | source/Classes/CrashReporter/ApigeePLCrashAsyncDwarfCFAStateEvaluation.cpp:366-401 | With such a length there is a program that never stops. |
| `CfaProgramTheorems.StopsBehindPc` | source/Classes/CrashReporter/ApigeePLCrashAsyncDwarfCFAStateEvaluation.cpp:188-200 | With a non-zero pc, a finished run executed instructions at locations up to pc only, and ended behind pc or at the end of the bytes. |
| `CfaProgramTheorems.RestoreReinstates` | source/Classes/CrashReporter/ApigeePLCrashAsyncDwarfCFAStateEvaluation.cpp:403-416 | DW_CFA_restore reinstates the rule, or the absence of one, held on entry. |
| `CfaProgramTheorems.RestoreExtendedReinstatesIff` | source/Classes/CrashReporter/ApigeePLCrashAsyncDwarfCFAStateEvaluation.cpp:418-432 | DW_CFA_restore_extended does so for its own register if and only if that had a rule on entry, has none now, or is register 0. |
| `CfaStandard.RestoreExtendedAgreesIff` | source/Classes/CrashReporter/ApigeePLCrashAsyncDwarfCFAStateEvaluation.cpp:418-432 | The whole row is the one that DWARF 4 section 6.4.2.3 gives if and only if the register had a rule on entry, or is register 0, or neither it nor register 0 has a rule now. |
| `CfaStandard.InstructionAgreesIff` | source/Classes/CrashReporter/ApigeePLCrashAsyncDwarfCFAStateEvaluation.cpp:202-457 | An instruction that runs without an error leaves the standard's row, location and position if and only if it is not the restoring of an outer state, and is not DW_CFA_restore_extended outside of that condition; remembering aside. |
| `CfaStandard.AgreesWithStandard` | source/Classes/CrashReporter/ApigeePLCrashAsyncDwarfCFAStateEvaluation.cpp:188-457 | Step by step the interpreter is where one for DWARF 4 section 6.4.2 is, and whenever all remembered states are restored both have the same row. |
| `CfaStandard.RememberedStateDiffers` | source/Classes/CrashReporter/ApigeePLCrashAsyncDwarfCFAStateEvaluation.cpp:434-446 | Right after DW_CFA_remember_state the rows agree if and only if the row was empty. |
| `CfaApply.ApplyState` | source/Classes/CrashReporter/ApigeePLCrashAsyncDwarfCFAStateEvaluation.cpp:473-576 | Applies the rules in the order of the iterator, and gives the first error on the way. |
| `CfaApply.InOrderIsPointwise` | source/Classes/CrashReporter/ApigeePLCrashAsyncDwarfCFAStateEvaluation.cpp:541-575 | Application succeeds if and only if every rule has a register and a value, and then each register is a function of the rules, the CFA and the old registers alone. |
| `CfaApply.OrderDoesNotMatter` | source/Classes/CrashReporter/ApigeePLCrashAsyncDwarfCFAStateEvaluation.cpp:541-575 | If only the return-address rule goes to the instruction pointer, the result is the same in every order of buckets and chains. |
| `CfaRuleLaws.OffsetRule` | source/Classes/CrashReporter/ApigeePLCrashAsyncDwarfCFAStateEvaluation.cpp:614-627 | offset(N) gives a register the word that is stored N bytes from the CFA, whatever the other rules and their order are. |
| `CfaRuleLaws.ValOffsetRule` | source/Classes/CrashReporter/ApigeePLCrashAsyncDwarfCFAStateEvaluation.cpp:629-631 | val_offset(N) gives it the CFA plus N. |
| `CfaRuleLaws.RegisterRule` | source/Classes/CrashReporter/ApigeePLCrashAsyncDwarfCFAStateEvaluation.cpp:633-648 | register(R) gives it what R holds now. |
| `CfaRuleLaws.SameValueRule` | source/Classes/CrashReporter/ApigeePLCrashAsyncDwarfCFAStateEvaluation.cpp:717-731 | same value gives it what it holds now. |
| `CfaRuleLaws.ValExpressionRule` | source/Classes/CrashReporter/ApigeePLCrashAsyncDwarfCFAStateEvaluation.cpp:650-714 | val_expression(E) gives it the value of the block. |
| `CfaRuleLaws.ExpressionRule` | source/Classes/CrashReporter/ApigeePLCrashAsyncDwarfCFAStateEvaluation.cpp:650-714 | expression(E) gives it the word that is stored at that value. |
| `CfaRuleLaws.ReturnAddressRule` | source/Classes/CrashReporter/ApigeePLCrashAsyncDwarfCFAStateEvaluation.cpp:549-573 | The value of the return-address column is the instruction pointer. |
| `CfaRuleLaws.NoRule` | source/Classes/CrashReporter/ApigeePLCrashAsyncDwarfCFAStateEvaluation.cpp:480-541 | Without a rule the stack pointer is the CFA, and preserved registers stay. |
| `CfaRuleLaws.CfaLaw` | source/Classes/CrashReporter/ApigeePLCrashAsyncDwarfCFAStateEvaluation.cpp:490-537 | The CFA for every kind of CFA rule, or its error. |
| `CfaRuleLaws.FirstRefusal` | source/Classes/CrashReporter/ApigeePLCrashAsyncDwarfCFAStateEvaluation.cpp:541-735 | Application succeeds if and only if no rule is refused, and else fails with the error of the first refused one. |
| `CfaApplyOrder.OrderFreeIff` | source/Classes/CrashReporter/ApigeePLCrashAsyncDwarfCFAStateEvaluation.cpp:541-575 | Whatever the register map, rules that all apply give one result in every order that buckets and chains can have, if and only if, for every register, the rules that set it from the last bucket with such a rule give it one value. |
| `CfaApplyOrder.OrderFreeIffIpAgrees` | source/Classes/CrashReporter/ApigeePLCrashAsyncDwarfCFAStateEvaluation.cpp:549-573 | If different numbers have different registers, that is so if and only if a second rule for the instruction pointer, in the bucket of the return-address rule, gives it the value of that rule. |
| `CfaApplyOrder.AllOrdersFail` | source/Classes/CrashReporter/ApigeePLCrashAsyncDwarfCFAStateEvaluation.cpp:541-575 | With a rule that has no register or no value, every order fails. |
| `CfaHistories.Record` | source/Classes/CrashReporter/ApigeePLCrashAsyncDwarfCFAState.cpp:117-166 | Every order that keeps the buckets apart occurs: setting the rules one by one in this order, on a new state, leaves a row which the iterator walks in this order. |
| `CfaApply.OrderMattersForTwoIpRules` | source/Classes/CrashReporter/ApigeePLCrashAsyncDwarfCFAStateEvaluation.cpp:549-573 | Two rules of one bucket for the instruction pointer with which the order shows. |
| `CfaHistories.TwoHistories` | source/Classes/CrashReporter/ApigeePLCrashAsyncDwarfCFAStateEvaluation.cpp:549-573 | Two histories of calls leave states with the same row whose application gives two instruction pointers. |
| `UnwindersAgree.SameCaller` | source/Classes/CrashReporter/ApigeePLCrashAsyncDwarfCFAStateEvaluation.cpp:473-576 | If the CFA rule gives the caller's stack pointer, DWARF rules and a compact entry that describe the same frame restore exactly the same registers with the same values. |
| `UnwindersAgree.CfaIsCallerSp` | source/Classes/CrashReporter/ApigeePLCrashAsyncDwarfCFAStateEvaluation.cpp:490-520 | In a frame that is laid out as an entry describes, the frame pointer plus two words, or the stack pointer plus the stack size, is the caller's stack pointer. |
| `AsyncListRuns.NeverDangling` | source/Classes/CrashReporter/ApigeePLCrashAsyncLinkedList.hpp:194-420 | Under every interleaving no reader or writer dereferences null or a deallocated node, no compare-and-swap fails, and the reference count is the number of readers. |
| `AsyncListAccess.EveryStepIsSafe` | source/Classes/CrashReporter/ApigeePLCrashAsyncLinkedList.hpp:194-420 | After any interleaving, every pointer that the next step reads or stores through, listed step by step, leads to an allocated node, and its compare-and-swap finds the value it expects. |
| `AsyncListAccess.ErrorsShow` | source/Classes/CrashReporter/ApigeePLCrashAsyncLinkedList.hpp:194-420 | In any state, reachable or not, a step is at fault exactly if one of those pointers is null or deallocated, and its compare-and-swap fails exactly if the link holds something else. |
| `AsyncListRuns.RunsKeepInv` | source/Classes/CrashReporter/ApigeePLCrashAsyncLinkedList.hpp:194-420 | Every step of every interleaving keeps the invariant: links that readers follow are complete at every moment. |
| `AsyncListRuns.UnlockedListValid` | source/Classes/CrashReporter/ApigeePLCrashAsyncLinkedList.hpp:138-147 | With no writer inside, the links form one valid list in both directions from head to tail. |
| `AsyncListRuns.OperationTakesEffect` | source/Classes/CrashReporter/ApigeePLCrashAsyncLinkedList.hpp:194-387 | A finished prepend, append or removal, with any reader steps in between, leaves the values of the list with the new one in front or at the end, or the list without the node. |
| `AsyncListProgress.OperationEnds` | source/Classes/CrashReporter/ApigeePLCrashAsyncLinkedList.hpp:194-387 | An insertion takes at most four steps of the writer, a removal at most five more than the list has nodes, whatever readers do in between, and the writer's next step is always enabled. |
| `AsyncListReaders.ReaderVisitsWhatStays` | source/Classes/CrashReporter/ApigeePLCrashAsyncLinkedList.hpp:396-420 | A reader that reaches the end without its node being removed under it has visited every node that stayed linked, once each and in list order. |
| `AsyncListReaders.RecyclingDivertsReader` | source/Classes/CrashReporter/ApigeePLCrashAsyncLinkedList.hpp:376-382 | Right after a node has been recycled under a reader, its link leads into the free list. |
| `AsyncListExample.ReaderIsDiverted` | source/Classes/CrashReporter/ApigeePLCrashAsyncLinkedList.hpp:194-420 | A run from the empty list in which a reader is diverted and misses a node that has been linked all the time. |
| `AsyncListReaders.ReaderLinkedIff` | source/Classes/CrashReporter/ApigeePLCrashAsyncLinkedList.hpp:194-420 | In every reachable state a reader's next link leads to a linked node if and only if its node is linked and not the last one, or is in a writer's hands with its link set to one; otherwise it is null or stays among the free or the leaked nodes. |
| `AsyncListReaders.ReuseLeadsBack` | source/Classes/CrashReporter/ApigeePLCrashAsyncLinkedList.hpp:194-230 | A reader on a recycled node gets back to the head of the list when the node is taken again for a prepend. |
| `AsyncListExample.ReaderIsLedBack` | source/Classes/CrashReporter/ApigeePLCrashAsyncLinkedList.hpp:194-420 | A run from the empty list that leads a reader on a recycled node back into the list. |
| `AsyncListFind.RemovesFoundValue` | source/Classes/CrashReporter/ApigeePLCrashAsyncLinkedList.hpp:310-387 | Whatever happens between finding a value and taking the lock, the removal takes out the found node and exactly one occurrence of that value, if the node has not been unlinked in between. |
| `AsyncListFind.RemovesValueIff` | source/Classes/CrashReporter/ApigeePLCrashAsyncLinkedList.hpp:310-387 | The removal takes one occurrence of a value, and nothing else, out of the list if and only if the found node is linked and carries that value when the lock is taken. |
| `AsyncListFind.ReusedNodeHasOtherValue` | source/Classes/CrashReporter/ApigeePLCrashAsyncLinkedList.hpp:310-320 | If it has been recycled, a prepend of any other value puts that into the found node and the node into the list, so that the removal takes out the other value. |
| `AsyncListExample.OtherValueIsRemoved` | source/Classes/CrashReporter/ApigeePLCrashAsyncLinkedList.hpp:304-387 | A run from the empty list in which a thread finds 1 and removes 7. |
| `AsyncListNodes.NodesConserved` | source/Classes/CrashReporter/ApigeePLCrashAsyncLinkedList.hpp:194-387 | Every allocated node is linked, free, leaked or in a writer's hands; leaked nodes stay so for ever. |
| `AsyncListNodes.RecyclingLeaks` | source/Classes/CrashReporter/ApigeePLCrashAsyncLinkedList.hpp:199-206 | Taking a node from a free list of n nodes leaks the other n - 1. |
| `AsyncListExample.FreeNodeLeaks` | source/Classes/CrashReporter/ApigeePLCrashAsyncLinkedList.hpp:194-206 | A run from the empty list that leaks a node. |
| `AsyncListNodes.DeallocatedIff` | source/Classes/CrashReporter/ApigeePLCrashAsyncLinkedList.hpp:372-404 | A step deallocates a node if and only if it is the last one of its removal without readers; the last reader that leaves deallocates nothing. |
| `CompactSearch.BinarySearch` | source/Classes/CrashReporter/ApigeePLCrashAsyncCompactUnwindEncoding.c:106-141 | For any non-empty table the search ends, stays inside and does not wrap; in an ordered one it finds an entry that covers the PC, or nothing exactly when the PC precedes all. |
| `CompactSearch.CoveringIsGreatest` | source/Classes/CrashReporter/ApigeePLCrashAsyncCompactUnwindEncoding.c:106-141 | A covering entry has the greatest value that is at most the PC. |
| `CompactSearch.FindPc` | source/Classes/CrashReporter/ApigeePLCrashAsyncCompactUnwindEncoding.c:160-361 | For a well-formed section, the two-level search gives the line of a linear search in the flattened table, and in host byte order exactly its function base and encoding, or the error. |
| `CompactTables.FindFunction` | source/Classes/CrashReporter/ApigeePLCrashAsyncCompactUnwindEncoding.c:160-361 | On a section that stands for a list of functions, the search finds exactly the last function at or before the PC, with its own encoding and, in host order, its offset; and nothing if and only if all of them lie behind the PC. |
| `CompactTables.EncodingFound` | source/Classes/CrashReporter/ApigeePLCrashAsyncCompactUnwindEncoding.c:311-340 | An encoding index is an error if and only if it lies behind both tables. |
| `CompactSearch.CompressedRightIff` | source/Classes/CrashReporter/ApigeePLCrashAsyncCompactUnwindEncoding.c:311-315 | The function base of a compressed entry is right if and only if the section is in host order, or swapping the entry a second time does nothing. |
| `CompactSearch.CoversInFlat` | source/Classes/CrashReporter/ApigeePLCrashAsyncCompactUnwindEncoding.c:214-304 | A covering line of a covering page covers the PC in the flattened table. |
| `CompactCodec.DecodeEncode` | source/Classes/CrashReporter/ApigeePLCrashAsyncCompactUnwindEncoding.c:383-559 | For every N, decoding inverts encoding on every list of different values of 1..N, and codes are below N!/(N-n)!. |
| `CompactCodec.EncodeDecode` | source/Classes/CrashReporter/ApigeePLCrashAsyncCompactUnwindEncoding.c:383-559 | For every N, every number below N!/(N-n)! decodes to such a list and is its code. |
| `CompactCodec.FitsTenBits` | source/Classes/CrashReporter/ApigeePLCrashAsyncCompactUnwindEncoding.c:470-471 | For N = 6 codes are below 720, so they fit the ten bits of the format. |
| `CompactRegisters.RegisterEncode` | source/Classes/CrashReporter/ApigeePLCrashAsyncCompactUnwindEncoding.c:383-472 | The loops and the factors of the source compute the code of the list for N = 6. |
| `CompactRegisters.RegisterDecode` | source/Classes/CrashReporter/ApigeePLCrashAsyncCompactUnwindEncoding.c:486-559 | The divisions and the search for unused registers decode any number; a register whose number is too large is left as it was. |
| `CompactRegisters.DecodeSetsAllIff` | source/Classes/CrashReporter/ApigeePLCrashAsyncCompactUnwindEncoding.c:543-559 | The output depends on what was there before if and only if the number is no code. |
| `CompactFrame.EntryApply` | source/Classes/CrashReporter/ApigeePLCrashAsyncCompactUnwindEncoding.c:923-1083 | Gives the state, or the first error, of popping the frame and restoring the listed registers in order. |
| `CompactFrame.UnwindRestores` | source/Classes/CrashReporter/ApigeePLCrashAsyncCompactUnwindEncoding.c:923-1083 | Applied to a frame laid out as the entry describes, it restores the caller's SP, IP, FP and listed registers; the new state has exactly those and the untouched non-volatile ones, all with the caller's values. |
| `CompactFrame.StackUnwinds` | source/Classes/CrashReporter/ApigeePLCrashAsyncCompactUnwindEncoding.c:923-1083 | A stack of any depth is unwound to its end, with every caller's state right. |
| `CompactPrologue.FramedRoundTrip` | source/Classes/CrashReporter/ApigeePLCrashAsyncCompactUnwindEncoding.c:954-994 | Applying a frame pointer entry undoes the prologue that pushes the frame pointer and saves the listed registers. |
| `CompactPrologue.FramelessRoundTrip` | source/Classes/CrashReporter/ApigeePLCrashAsyncCompactUnwindEncoding.c:996-1048 | Applying an immediate frameless entry undoes the prologue that pushes the listed registers and lowers the stack pointer. |
| `CompactPrologue.IndirectRoundTrip` | source/Classes/CrashReporter/ApigeePLCrashAsyncCompactUnwindEncoding.c:996-1048 | Applying an indirect frameless entry undoes the same prologue, with the size in an instruction of the function. |
| `CompactRefusals.UnwindRefused` | source/Classes/CrashReporter/ApigeePLCrashAsyncCompactUnwindEncoding.c:923-1083 | Applying an entry fails if and only if the register to start from is missing, an address overflows or memory cannot be read, with the error of the first such thing. |
| `Allocator.AsyncAllocator.constructor` | source/Classes/CrashReporter/ApigeePLCrashAsyncAllocator.c:82-144 | The header lies at the start of the usable pages, guard pages lie outside of them, and all of the requested size is available. |
| `Allocator.AsyncAllocator.Alloc` | source/Classes/CrashReporter/ApigeePLCrashAsyncAllocator.c:156-176 | Without other threads, fails exactly when the size exceeds what is available, and otherwise takes the next aligned block. |
| `AllocatorThreads.BlocksDisjoint` | source/Classes/CrashReporter/ApigeePLCrashAsyncAllocator.c:163-175 | For any threads and any interleaving of the separate reads and swaps: if no block handed out leads over 64 bits, the blocks are aligned, above the header and pairwise disjoint. |
| `AllocatorThreads.UnracedBlocksInside` | source/Classes/CrashReporter/ApigeePLCrashAsyncAllocator.c:163-175 | If every successful swap's space check saw the swapped address, all blocks are disjoint and end inside the usable pages. |
| `AllocatorSizes.AllRunsGoodIff` | source/Classes/CrashReporter/ApigeePLCrashAsyncAllocator.c:163-175 | All interleavings of calls of any sizes keep all blocks aligned, apart and inside the usable pages if and only if those that would have room alone, rounded up, have room together. |
| `AllocatorSizes.InitialRunsGoodIff` | source/Classes/CrashReporter/ApigeePLCrashAsyncAllocator.c:82-176 | So it is from a new allocator on. |
| `AllocatorSizes.SizesKeepBlocksApart` | source/Classes/CrashReporter/ApigeePLCrashAsyncAllocator.c:163-175 | Sizes whose rounded sum does not lead over 64 bits keep all blocks apart in every interleaving, whatever the space checks see. |
| `AllocatorThreads.CheckAfterOverrun` | source/Classes/CrashReporter/ApigeePLCrashAsyncAllocator.c:165-169 | Behind the end, the unsigned check lets every size through that does not reach 2^64 beyond the end. |
| `AllocatorThreads.ChecksCanOverrun` | source/Classes/CrashReporter/ApigeePLCrashAsyncAllocator.c:163-175 | A run of two threads whose second block ends behind the usable pages. |
| `AllocatorThreads.BlocksCanOverlap` | source/Classes/CrashReporter/ApigeePLCrashAsyncAllocator.c:163-175 | A run that goes on from there and hands the first block's memory out again. |
| `Leb128.ReadUleb128` | source/Classes/CrashReporter/ApigeePLCrashAsyncDwarfPrimitives.cpp:447-481 | The loop gives the base-128 value of the encoding modulo 2^64 and its size, or the error. |
| `Leb128.ReadSleb128` | source/Classes/CrashReporter/ApigeePLCrashAsyncDwarfPrimitives.cpp:492-530 | The same for the signed value. |
| `Leb128.EncodingErrors` | source/Classes/CrashReporter/ApigeePLCrashAsyncDwarfPrimitives.cpp:447-530 | ENOTSUP exactly when ten readable bytes all continue, EINVAL exactly when the range ends first. |
| `Leb128.UnsignedRoundTrip` | source/Classes/CrashReporter/ApigeePLCrashAsyncDwarfPrimitives.cpp:447-481 | Reading inverts the standard encoder on all unsigned 64-bit values. |
| `Leb128.SignedRoundTrip` | source/Classes/CrashReporter/ApigeePLCrashAsyncDwarfPrimitives.cpp:492-530 | Reading inverts the standard encoder on all signed 64-bit values. |
| `OpStreamClass.OpStream.ReadUleb` | source/Classes/CrashReporter/apigee_dwarf_opstream.hpp:167-183 | Reading past the stream's end and refusing to move there is reading the stream alone. |
| `DwarfStackClass.DwarfStack.Rotate` | source/Classes/CrashReporter/apigee_dwarf_stack.hpp:196-221 | Moves the top value under the next two, or empties a stack of less than three. |
| `ExpressionEvaluation.ExpressionEval` | source/Classes/CrashReporter/ApigeePLCrashAsyncDwarfExpression.cpp:74-698 | For all bytes, evaluation on the fixed-size stack gives the value or error of the pure interpreter. |
| `ExpressionTrees.CodeComputes` | source/Classes/CrashReporter/ApigeePLCrashAsyncDwarfExpression.cpp:168-621 | The postfix code of a tree of numbers, registers with offsets and operators, anywhere in a program, pushes the tree's integer value modulo the word size and leaves the values below untouched. |
| `ExpressionTrees.EvaluatesTree` | source/Classes/CrashReporter/ApigeePLCrashAsyncDwarfExpression.cpp:164-698 | Its evaluation gives that value if and only if the stack need is at most 100, and EINTERNAL otherwise. |
| `ExpressionTrees.ProgramsEnd` | source/Classes/CrashReporter/ApigeePLCrashAsyncDwarfExpression.cpp:168-648 | An evaluation ends within one step per byte and one more, unless it comes to a jump back to its own opcode or before it. |
| `ExpressionTrees.JumpFreeProgramsEnd` | source/Classes/CrashReporter/ApigeePLCrashAsyncDwarfExpression.cpp:168-648 | Programs without DW_OP_skip and DW_OP_bra end, whatever is on the stack. |
| `ExpressionTrees.LoopingExpression` | source/Classes/CrashReporter/ApigeePLCrashAsyncDwarfExpression.cpp:623-630 | A program with a backward skip never ends. |
| `ExpressionStandard.ExecuteAgreesIff` | source/Classes/CrashReporter/ApigeePLCrashAsyncDwarfExpression.cpp:168-648 | Operation by operation, once decoded: what DWARF 4 section 2.5.1 says happens if and only if the operation is not DW_OP_bregx on a stack with room, not a pick on a full stack, and no division or comparison that is signed in the standard with operands that show it. The standard is written out for all operations. |
| `ExpressionStandard.InsteadOfStandard` | source/Classes/CrashReporter/ApigeePLCrashAsyncDwarfExpression.cpp:289-645 | What happens where the source departs from the standard: DW_OP_bregx pushes the sum and duplicates it, with the errors of both; DW_OP_pick leaves a full stack alone; the comparisons and the division are those of the unsigned values. |
| `ExpressionStandard.ComparisonAgreesIff` | source/Classes/CrashReporter/ApigeePLCrashAsyncDwarfExpression.cpp:563-621 | All four unsigned comparisons agree with signed ones if and only if both operands have the same sign bit. |
| `ExpressionStandard.DivisionAgreesIff` | source/Classes/CrashReporter/ApigeePLCrashAsyncDwarfExpression.cpp:430-445 | The unsigned division agrees with the signed one, for every divisor but 0, exactly for the operands that DivisionConforms lists. |
| `ExpressionStandard.DecodeAgreesIff` | source/Classes/CrashReporter/ApigeePLCrashAsyncDwarfExpression.cpp:280-281 | Whatever the registers hold, decoding gives what the standard's decoder, written out for all opcodes, gives, if and only if the register number of a DW_OP_bregx, read as signed, is not negative and below half the word. |
| `ExpressionStandard.Register64` | source/Classes/CrashReporter/ApigeePLCrashAsyncDwarfExpression.cpp:280-281 | A DW_OP_bregx of register 64 that the source refuses. |
| `ExpressionStandard.StepAgreesIff` | source/Classes/CrashReporter/ApigeePLCrashAsyncDwarfExpression.cpp:164-698 | A step whose encoding conforms is the standard's if and only if the operation conforms. |
| `ExpressionStandard.ConformingRunAgrees` | source/Classes/CrashReporter/ApigeePLCrashAsyncDwarfExpression.cpp:164-698 | A program whose operations conform where the evaluation comes to them, and their encodings too, evaluates as the standard says. |
| `EhPointer.PointerRoundTrip` | source/Classes/CrashReporter/ApigeePLCrashAsyncDwarfPrimitives.cpp:120-352 | For every format, base and byte order, reading inverts the encoding of a pointer, adds the base modulo the pointer size and gives the size. |
| `EhPointer.PointerByBase` | source/Classes/CrashReporter/ApigeePLCrashAsyncDwarfPrimitives.cpp:136-180 | The base is 0 for absptr, the address of the pointer field itself for pcrel, and the given address for textrel, datarel and funcrel. |
| `EhPointer.PointerRefused` | source/Classes/CrashReporter/ApigeePLCrashAsyncDwarfPrimitives.cpp:120-352 | An omitted pointer, an unknown base or format, and a value that cannot be read are refused, each with its error. |
| `EhPointer.IndirectReads` | source/Classes/CrashReporter/ApigeePLCrashAsyncDwarfPrimitives.cpp:320-352 | An indirect pointer is the one that stands where the direct one leads. |
| `EhPointer.AddressRoundTrip` | source/Classes/CrashReporter/ApigeePLCrashAsyncDwarfPrimitives.cpp:219-230 | In the target's own format every address can be written relative to every base. |
| `EhPointer.AlignedReads` | source/Classes/CrashReporter/ApigeePLCrashAsyncDwarfPrimitives.cpp:181-203 | DW_EH_PE_aligned leaves out less than a pointer, up to an aligned load address. |
| `FdeRecord.FdeRoundTrip` | source/Classes/CrashReporter/ApigeePLCrashAsyncDwarfFDE.cpp:60-216 | For records in both kinds of sections, both word sizes, both byte orders and every pointer format, parsing gives exactly the fields that were laid out, and the instructions stand where it says; a pcrel start is relative to the address of its own field. |
| `CieRecord.CieInfoInit` | source/Classes/CrashReporter/ApigeePLCrashAsyncDwarfCIE.cpp:56-389 | The reads one after the other, with the loops over the augmentation string and its flags, give the record or the first error. |
| `CieRecord.HeadRefused` | source/Classes/CrashReporter/ApigeePLCrashAsyncDwarfCIE.cpp:73-135 | A record with another id or version is refused. |
| `CieRecord.StringRefused` | source/Classes/CrashReporter/ApigeePLCrashAsyncDwarfCIE.cpp:137-175 | A string that does not begin with 'z' and is not empty, or does not end, is refused. |
| `CieRecord.FlagRefused` | source/Classes/CrashReporter/ApigeePLCrashAsyncDwarfCIE.cpp:255-358 | An unknown flag ends the reading of flags; missing data is an error. |
| `CieLayout.CieRoundTrip` | source/Classes/CrashReporter/ApigeePLCrashAsyncDwarfCIE.cpp:56-389 | For both word sizes, versions 1, 3 and 4, both byte orders and all flags in any order, parsing gives exactly the fields that were laid out, and the initial instructions stand where it says. |
| `CieLayout.InstructionsRightIff` | source/Classes/CrashReporter/ApigeePLCrashAsyncDwarfCIE.cpp:366-389 | The initial instructions are where the record declares them, or it is refused, if and only if what it declares before them does not go over 64 bits, or does not come back into the record. |
| `CieLayout.SizeLeadsBack` | source/Classes/CrashReporter/ApigeePLCrashAsyncDwarfCIE.cpp:366-389 | With a size of 2^64 - 1 they start one byte before the augmentation data. |
| `CieLayout.FdeWithCieRoundTrip` | source/Classes/CrashReporter/ApigeePLCrashAsyncDwarfFDE.cpp:60-216 | An FDE laid out with its CIE is read back with nothing left open: the pointer encoding comes from the CIE's flags. |
| `FrameSections.FindInSection` | source/Classes/CrashReporter/ApigeePLCrashAsyncDwarfEncoding.cpp:85-208 | On a section laid out from any list of CIEs and FDEs, the scan finds the first FDE for code at the PC, with its fields, and ENOTFOUND if there is none. |
| `FdeInstructions.AugmentationIsRun` | source/Classes/CrashReporter/ApigeePLCrashAsyncDwarfFDE.cpp:196-210 | From the bytes of CIE and FDE to the program run: augmentation data of an FDE that is empty or of four bytes is run as an instruction in front of its program. |
| `FdeInstructions.PointerHidesRules` | source/Classes/CrashReporter/ApigeePLCrashAsyncDwarfFDE.cpp:196-210 | Where that instruction leads the location over the PC, none of the FDE's rules come into force. |
| `FdeInstructions.ExampleHidesRule` | source/Classes/CrashReporter/ApigeePLCrashAsyncDwarfFDE.cpp:196-210 | The bytes of a section in which that is so. |
| `FdeInstructions.SetLocationDecodes` | source/Classes/CrashReporter/ApigeePLCrashAsyncDwarfCFAStateEvaluation.cpp:206-211 | DW_CFA_set_loc with any address, relative to any base and in the target's pointer format, is read back. |
| `FdeScan.FindFde` | source/Classes/CrashReporter/ApigeePLCrashAsyncDwarfEncoding.cpp:85-208 | The loop is the scan from the offset, or EINVAL for an offset outside of the section. |
| `FdeScan.ScanEndsIff` | source/Classes/CrashReporter/ApigeePLCrashAsyncDwarfEncoding.cpp:108-207 | The scan ends if and only if it has ended after one step per byte and one more. |
| `FdeScan.ScanEnds` | source/Classes/CrashReporter/ApigeePLCrashAsyncDwarfEncoding.cpp:108-207 | The scan ends within one step per byte and one more, unless it comes to an entry that leads back or to itself. |
| `FdeScan.GoesBackIff` | source/Classes/CrashReporter/ApigeePLCrashAsyncDwarfEncoding.cpp:150-165 | An entry does so if and only if its length is above PL_VM_OFF_MAX and, with the length field, at most 2^64. |
| `FdeScan.FdeRefused` | source/Classes/CrashReporter/ApigeePLCrashAsyncDwarfFDE.cpp:60-216 | What an FDE is refused with: the first thing that cannot be read, or numbers that do not fit. |
| `FdeScan.FindsFirst` | source/Classes/CrashReporter/ApigeePLCrashAsyncDwarfEncoding.cpp:108-207 | For every section: the scan returns an FDE if and only if that is the first one from the offset on that covers the PC, with nothing before it that ends the section or cannot be parsed. |
| `FdeScan.NotFoundIff` | source/Classes/CrashReporter/ApigeePLCrashAsyncDwarfEncoding.cpp:108-207 | ENOTFOUND comes if and only if no FDE covers the PC up to the terminator, the end, or an FDE whose own pointer is omitted. |
| `FdeScan.OmitHidesFde` | source/Classes/CrashReporter/ApigeePLCrashAsyncDwarfEncoding.cpp:180-207 | So a covering FDE is not found behind one with DW_EH_PE_omit. |
| `FdeScan.InstructionsEndAtNext` | source/Classes/CrashReporter/ApigeePLCrashAsyncDwarfFDE.cpp:202-210 | The instructions of an FDE end exactly where the next entry starts, if and only if its length is at most PL_VM_OFF_MAX. |
| `FdeScan.InstructionsDisjoint` | source/Classes/CrashReporter/ApigeePLCrashAsyncDwarfFDE.cpp:202-210 | So the instruction ranges of two entries of a scan do not overlap, if no entry from the one to the other leads back. |
| `FdeScan.ScanCanLoop` | source/Classes/CrashReporter/ApigeePLCrashAsyncDwarfEncoding.cpp:156-189 | A CIE of length 2^64 - 12 is its own successor, and the scan never ends. |
| `FdeScan.LoopingSectionLoops` | source/Classes/CrashReporter/ApigeePLCrashAsyncDwarfEncoding.cpp:156-189 | The twenty bytes of such a section. |
| `AsyncFile.AsyncFile.Writen` | source/Classes/CrashReporter/ApigeePLCrashAsync.c:435-458 | Writes all the data for any pattern of short writes and interruptions, or fails with a prefix of it written. |
| `AsyncFile.AsyncFile.FileWrite` | source/Classes/CrashReporter/ApigeePLCrashAsync.c:482-517 | The limit check, the flush of a full buffer and the direct write of large data, on the 256-byte buffer. |
| `AsyncFile.AsyncFile.FileFlush` | source/Classes/CrashReporter/ApigeePLCrashAsync.c:523-537 | Writes what is pending and empties the buffer if that succeeds. |
| `AsyncFile.RunsKeepData` | source/Classes/CrashReporter/ApigeePLCrashAsync.c:435-537 | After any run of calls without an I/O error, descriptor and buffer hold the concatenation of all accepted data; accepted data never exceeds a limit. |
| `AsyncFile.AcceptedIff` | source/Classes/CrashReporter/ApigeePLCrashAsync.c:482-517 | Data over the limit changes nothing; data that fits in the buffer is accepted without a write; other data is if and only if what is pending, and data larger than the buffer, can be written. |
| `AsyncFile.WritingSucceeds` | source/Classes/CrashReporter/ApigeePLCrashAsync.c:435-458 | Interruptions and short writes do not make a writing fail. |
| `AsyncFile.RunSucceeds` | source/Classes/CrashReporter/ApigeePLCrashAsync.c:435-537 | Over any run without a limit: as long as the descriptor takes bytes as often as there are bytes, pending or to come, no call fails and all data is accepted, whatever the short writes and interruptions are. |
| `AsyncFile.FlushLeavesNothing` | source/Classes/CrashReporter/ApigeePLCrashAsync.c:523-537 | After a successful flush all accepted data is on the descriptor. |
| `AsyncFile.FlushRetried` | source/Classes/CrashReporter/ApigeePLCrashAsync.c:523-537 | For every flush that fails and is repeated with success: the descriptor gets the bytes that the failing one had written twice, so it is right if and only if there were none. |
| `AsyncFile.WriteRetried` | source/Classes/CrashReporter/ApigeePLCrashAsync.c:482-517 | The same for every write that fails in its flush or in its direct write. |
| `AsyncFile.RetryDuplicates` | source/Classes/CrashReporter/ApigeePLCrashAsync.c:523-537 | A flush that fails half-way and is repeated, and exceeds the limit. |
| `ObjcCache.ObjcClassCache.ParseClass` | source/Classes/CrashReporter/ApigeePLCrashAsyncObjCSection.cpp:700-774 | The parse on the arrays of the cache is the one on a cache value. |
| `ObjcCache.CacheIsTransparent` | source/Classes/CrashReporter/ApigeePLCrashAsyncObjCSection.cpp:700-774 | After any parses across any images, whenever the parse without the cache succeeds the one with it yields the same class_ro bytes. |
| `ObjcCache.ParseAgreesIff` | source/Classes/CrashReporter/ApigeePLCrashAsyncObjCSection.cpp:700-774 | The results differ only where the cached pointer saves a read of a mapped section that fails. |
| `ObjcCache.LookupFaithful` | source/Classes/CrashReporter/ApigeePLCrashAsyncObjCSection.cpp:244-252 | What the cache finds is the pointer in memory; collisions and zero keys or values are only ever misses. |
| `ObjcCache.UncachedReads` | source/Classes/CrashReporter/ApigeePLCrashAsyncObjCSection.cpp:700-774 | The pointer is the data field without its two lowest bits; what is read through it, and the error otherwise. |
| `ObjcCache.ParseFills` | source/Classes/CrashReporter/ApigeePLCrashAsyncObjCSection.cpp:263-287 | Reading a realized class leaves its pointer in the cache, if there is memory and its bucket is free. |
| `ObjcCache.FoundStays` | source/Classes/CrashReporter/ApigeePLCrashAsyncObjCSection.cpp:263-287 | What has been found is found from then on, whatever else is parsed. |

## Left out

- `CfaStateClass.CfaState.RemoveRegister`: returns false, with nothing changed, where the source never returns; the interpreter reports that as an outcome of its own.
- `AsyncListFind.RemovesFoundValue`: one way, because a node that was unlinked may have got the same value again; `AsyncListFind.RemovesValueIff` is exact. The search itself is a reader's run.
- `CfaProgramTheorems.RestoreExtendedReinstatesIff`: speaks of the operand's own register; `CfaStandard.RestoreExtendedAgreesIff` is about the whole row.
- `CfaApplyOrder.OrderFreeIff`: is about rules that all apply; `CfaApplyOrder.AllOrdersFail` is about the others, but not about which error comes first.
- `CfaEvaluation.EvalProgram`: takes a bound on the number of opcodes, because programs can run for ever; the GNU pointer reader is a parameter, and a 64-bit host is assumed.
- `CfaAssembler.AssembledRuns`: covers every instruction but DW_CFA_set_loc, whose operand depends on its place; `FdeInstructions.SetLocationDecodes` is about that one. LEB128 operands are of minimal length.
- `CfaApply.ApplyState`: the register map, reading of words and evaluation of expressions are parameters; registers that are not available and volatile ones are sets.
- `CfaApply.OrderDoesNotMatter`: excludes two rules for one register; `CfaApplyOrder.OrderFreeIff` does not.
- `UnwindersAgree.SameCaller`: covers rules of kind offset, which is what the prologues need.
- `AsyncListRuns.OperationTakesEffect`: says what a finished operation leaves behind; `AsyncListProgress.OperationEnds` says that it finishes if its thread is run. `reset` of a free node is one step; the memory orders of the barriers are sequentially consistent.
- `AsyncListReaders.ReaderVisitsWhatStays`: says nothing about readers whose current node is removed under them; `AsyncListReaders.ReaderLinkedIff` says where those get to.
- `AllocatorThreads.BlocksDisjoint`: says nothing about runs with a block that leads over 64 bits, as `AllocatorThreads.BlocksCanOverlap` has one; `AllocatorSizes.SizesKeepBlocksApart` says which sizes keep that from happening.
- `Allocator.AsyncAllocator.constructor`: the mapping is a parameter, and sizes that do not round to pages within 64 bits are excluded; vm_protect is not modelled.
- `CompactSearch.FindPc`: the section is a value with its pages, so failing range checks of the mapping are not modelled; an index of one entry, for which the source searches an empty table, is excluded.
- `CompactRegisters.RegisterEncode`: takes lists of different registers between 1 and 6 only, which the source demands of its callers.
- `CompactFrame.EntryApply`: unreadable memory has one error code; the buffer of six words is not modelled.
- `ExpressionEvaluation.ExpressionEval`: takes a bound on the number of opcodes; registers, memory and the value of shifts by the word size or more, which C++ leaves undefined, are parameters; operands of `+` are read from left to right.
- `ExpressionTrees.EvaluatesTree`: trees have no divisions and shifts, which are partial or undefined for some operands.
- `FdeScan.FdeInfoInit`: the CIE parser and the pointer reader are parameters of a section, so that the scan is right for any; `CieLayout.FrameSection` puts the modelled ones in. Pointer sizes do not wrap an offset, and what is stored in the record before an error is not modelled.
- `FdeInstructions.AugmentationIsRun`: covers augmentation data of no and of four bytes; what other sizes are run as depends on the data.
- `CieLayout.CieRoundTrip`: covers direct personality pointers, and flags that are known; an unknown one ends the reading of flags in `CieRecord.CieInfoInit`.
- `CieRecord.CieInfoInit`: what is stored in the record before an error is not modelled, and an address before the section is refused at its first read.
- `FdeRecord.FdeRoundTrip`: covers direct pointers; one that is read through another pointer depends on the target's memory.
- `AsyncFile.AsyncFile.Write`: the descriptor answers from an arbitrary finite list and fails after it; a write of zero bytes counts as EINTR or an error.
- `AsyncFile.AsyncFile.FileWrite`: byte counts are unbounded.
- `ObjcCache.CacheIsTransparent`: the target's memory does not change, and mapped sections agree with it.
- `ExpressionTrees.CodeComputes`: asks that the registers of a tree have values; `ExpressionStandard.DecodeAgreesIff` has the error otherwise.
- `CfaMemory.OffsetRestores`: is about products in the signed range of a word, as addresses relative to the CFA are; `CfaAssembler.AssembledDecodes` is about all.
- `CompactTables.FindFunction`: asks for functions at different offsets; `CompactSearch.FindPc` does not.
- `FrameSections.FindInSection`: sections of at most PL_VM_OFF_MAX bytes, as all in memory are.
- The compact entry decoder (`cfe_entry_init`): bit fields with constants from a system header, which is not part of this model.
- Reading a pointer through another one is a parameter of `EhPointer`.
- Mach calls, thread state tables, Mach-O parsing, symbol lookup, Objective-C method search, signal and exception mapping: kernel interfaces and finite tables.
- The network client, categories, samples and templates of the repository: no algorithmic core.
