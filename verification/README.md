# Hooks, handshake and schedules of the client patch, verified

This project models the parts of the client patch on which its correctness hangs, and proves what they
promise. `dafny verify dfyconfig.toml` checks all of it.

The Detours library, x86 configuration:

- `Words` – bytes, 32-bit words, and the flat memory that code, trampolines and hook pointers share.
- `IntelDecoder` – a reference decoder of lengths and control flow after the Intel SDM, Volume 2 (chapter 2
  and appendix A), written independently of the copier's tables.
- `CopyTables`, `Relocation`, `Disassembler`, `Meaning` – the copier `CDetourDis`: its tables agree with the
  reference decoder, its methods write exactly the relocated bytes, and those mean the same exactly when
  `Meaning.Faithful` says so.
- `Prologue`, `MovedCode`, `Builder`, `Simulation`, `Threads` – the copy loop of an attach, the finished
  trampoline, the simulation of the original by it, and the repair of suspended threads.
- `RegionSearch`, `Trampolines` – where trampoline regions are looked for, and the allocator whose free
  chains run through the trampolines' own memory.
- `Pages`, `Targets`, `Edits`, `Transactions` – page protections, code behind pointers, what a commit
  writes, and the transaction: begin, attach, detach, commit, abort.
- `HookStack`, `HookOrder`, `Installer` – any number of hooks on one target, hooks taken off out of order, and the
  all-or-nothing installer.
- `Arm64`, `Arm64Moves`, `Arm64Literals`, `Arm64Relocator` – the second relocator of the library, after
  chapters C6 and C7 of Arm DDI 0487.
- `Witnesses` – concrete inputs for the findings below.

The patch's own state machines: `FeatureRegistry` and `FeatureHandshake` (server-gated features and their
mismatch notices, with reentrant delivery), `AudioSchedule`, `FontCache`, `CrashRing`.

## Findings

Where the code falls short of what one might expect, the exact condition is proved. `Witnesses` has an input
for each of the failures of the copier, of the repair of threads and of the page protections.

- EVEX instructions of map 1 with opcode 7A or 7B, and UD0 and UD1, are not copied; those with opcode 78 and an
  implied 66 or F2 are taken for EXTRQ or INSERTQ and read as eight bytes, right only if the operand happens to have
  two bytes behind ModR/M (`Relocation.EvexReadRight`, `Relocation.OthersReadRight`).
- LOOP and JECXZ are moved with a one-byte displacement that need not fit, and are said to be three bytes shorter
  then; a 66 prefix makes a relocated branch wrong, and XBEGIN is not relocated (`Meaning.CopyKeepsMeaning`).
- The segment override is not initialised, so that what is reported of an indirect call or jump without a segment
  prefix depends on what the field held (`Disassembler.CDetourDis.constructor`, `Disassembler.CDetourDis.CopyFF`).
- The size of an instruction with 16-bit addressing is read from the 32-bit table, so that all but some forms are read
  too short or too long (`CopyTables.ModRmTableIsSdm`, `Relocation.OthersReadRight`).
- A call through a trampoline is not a call of the unhooked function where that calls itself, directly or through
  others: the inner call enters the newest detour (`Simulation.RunsPartWhereUnlike`, `HookStack.RecursionRunsNewest`).
- A function that branches back to its own first byte from behind the moved prologue enters the detour
  (`Simulation.RunsPartInTarget`).
- Removing a hook that is not the newest makes calls of the target miss all newer detours, and removing the next newer
  one then brings the removed detour back, which calls itself (`HookOrder.AnyRemoved`, `HookOrder.RemovedComesBack`,
  `HookOrder.RemovedCallsItself`).
- A thread stopped at the first byte of a target is not sent to the trampoline if the moved instructions
  are 8 or 16 bytes long, and one stopped at a trampoline's last jump is not sent back right if they are
  more than 7 (`Prologue.ThreadsLeaveTarget`, `Prologue.ThreadsLeaveTrampoline`).
- A thread that a removal sends back to the target is sent on by an older attachment of the same target in the
  same transaction (`Threads.RepairIs`).
- Detaching one hook twice in a transaction succeeds, and leaves a free chain without an end and the target's page
  writable (`Transactions.DetachTwice`); a chain stays finite exactly when no trampoline is given back twice
  (`Trampolines.FreedChain`).
- Of two operations in one transaction that write the same bytes differently the older one's stand: of two
  attachments to one target the newer is lost, unless it has the same detour (`Edits.OperationStands`,
  `Edits.NewerStandsIffAgreed`, `Edits.SameTargetOldestWins`).
- The search for a trampoline region starts at the target and takes the first usable region, even where the target's own
  jump puts that out of reach; then there is no trampoline although another region may be within reach, and the region
  stays allocated (`Trampolines.TrampolineHeap.Allocate`, `Trampolines.RegionAtHandIsFound`,
  `Witnesses.FoundOutOfReach`).
- Far returns, IRET, far and register-indirect jumps and prefixed returns are not taken for the end of a function, so
  that what follows may be moved and overwritten (`Prologue.EndsFunctionIff`).
- Attaching through a short jump to a function that is hooked already hooks its detour
  (`Targets.HookedIsFoundAgain`).
- A detour that is its own target is neither queued nor reported (`Transactions.Detours.Attach`).
- Page protections are restored exactly if for each page the oldest operation that touches it recorded what the
  page was. A target that crosses into another page spoils that if the two pages are protected differently, and also
  if an older target has made the first writable but not the second; an older target in the second page saves it
  (`Pages.UndoneIffRestorable`, `Pages.RestorableIffRecoverable`, `Transactions.PendingRestores`).
- A transaction whose begin fails to make the regions writable stays pending (`Transactions.Detours.Begin`,
  `Installer.InstallHooks`).
- The comment in `lib/detours/detours.cpp` at line 1534 says that all but the first trampoline of a region
  are put on the free list; the loop below it leaves out two. The model follows the loop.
- Relocated ARM64 branches with condition AL or NV, or testing X17 at a great distance, go wrong
  (`Arm64Relocator.CopyIsRightIff`). A relocated ADR that becomes ADRP and ADD adds in a 32-bit register, and so loses
  the upper half of any address from 4 GB on (`Arm64Literals.AddressIsRightIff`). A literal load keeps its form up to
  2 MB although it reaches 1 MB, and a prefetch out of reach becomes a move to a register
  (`Arm64Literals.LiteralIsRightIff`).
- The ARM64 instruction BC.cond is taken for none that reads its own address, and copied as it is
  (`Arm64Relocator.ConsistentIsRightIff`).
- If an instance boundary is dispatched while a delivery shows a message, the messages behind it are those of the
  instance before, and only so can a feature be shown twice between resets
  (`FeatureHandshake.FeatureHandshakePatch.ShowAll`, `FeatureHandshake.FeatureHandshakePatch.Call`).
- Audio updates can be 62 in less than a second, for a clock whose frequency is neither a multiple of sixty nor one more
  (`AudioSchedule.SixtyOrSo`, `AudioSchedule.MostIsReached`).
- The font cache refuses scans for every second half of a 2^32 ms cycle after a scan
  (`FontCache.ReservedWithinHalfCycle`), and a crash ring dumps too few messages just after its counter has
  wrapped around (`CrashRing.CrashRing.Dump`).

## Assumptions

Stated as preconditions where they are used: the answers of VirtualQuery and VirtualAlloc are those of a
system that allocates in units of 64 KB, never the first, and hands out only free memory; a prologue to be
moved consists of `Movable` instructions, read right and of at most 13 bytes when copied; pointer cells and targets
belong to the program and not to trampoline space; what a pointer to be detached leads to does not look like a
hook of the detour given, by the size it saved and the detour it names, unless it is one in place.
What code does is given by a `Processor`, whose effects and calls see the data and all of memory, code included, but
not EIP. In a session of stacked hooks (`HookStack.Session`) the target and the detours do not start with a jump stub
that an attach would follow, and the pointer cells are distinct.

## Model

| member | source | states |
|---|---|---|
| CopyTables.OneByteTableIsSdm | lib/detours/disasm.cpp:961-1300 | for each one-byte opcode, the entry that finally measures it gives the length, the displacement field and the jump kind that the Intel manual gives |
| CopyTables.TwoByteTableIsSdm | lib/detours/disasm.cpp:1308-1600 | the same for the opcodes behind 0F |
| CopyTables.ModRmTableIsSdm | lib/detours/disasm.cpp:942-959 | the ModR/M table agrees with the manual's 32-bit addressing for every byte pair, and with its 16-bit addressing exactly for the forms `Measured` lists |
| CopyTables.Handlers | lib/detours/disasm.cpp:961-1300 | which handler each one-byte opcode has: none of those with a relative target has a special one |
| CopyTables.Handlers0F | lib/detours/disasm.cpp:1308-1600 | which handler each two-byte opcode has, and that exactly the undefined ones, UD0 and UD1 among them, have none |
| Disassembler.CDetourDis.CopyInstruction | lib/detours/disasm.cpp:342-359 | for every instruction the manual defines memory afterwards holds at the destination exactly the relocated bytes of the instruction as the copier reads it, and nothing else changed; extra length, reported target and returned address are those of that reading, and the returned address is the next instruction if and only if it is `ReadRight` |
| Relocation.EvexReadRight | lib/detours/disasm.cpp:593-609 | behind EVEX, map 1 is read as what the manual says if and only if the opcode is not 7A or 7B and the operand is measured as the manual has it; with 78 and a 66 or F2 prefix or payload, if and only if it has exactly two bytes behind ModR/M |
| Relocation.OthersReadRight | lib/detours/disasm.cpp:586-591 | everything else is read as what it is if and only if its operand is `Measured`, as every 32-bit address is and some 16-bit ones are, and it is not UD0 or UD1, whatever prefixes stand before it |
| Relocation.MisreadEndsElsewhere | lib/detours/disasm.cpp:593-609 | an instruction that is misread is left somewhere in its middle, or behind its end |
| Disassembler.CDetourDis.CopyBytes | lib/detours/disasm.cpp:361-440 | the table-driven copy, with its size rules and its displacement, achieves the same relocation |
| Words.SignedAre | lib/detours/disasm.cpp:508-527 | a field of 8, 16 or 32 bits is read as the number in its signed range that is the same modulo its size |
| Disassembler.CDetourDis.AdjustTarget | lib/detours/disasm.cpp:496-574 | rewrites the field in place to the old displacement minus the distance moved, truncated to the field; returns the address it named, and notes the extra length only if the new displacement does not fit |
| Disassembler.CDetourDis.CopyBytesJump | lib/detours/disasm.cpp:463-494 | short jumps become near ones that go to the same address |
| Disassembler.CDetourDis.CopyBytesPrefix | lib/detours/disasm.cpp:442-447 | a prefix is copied before the rest of the instruction is relocated |
| Disassembler.CDetourDis.NotePrefix | lib/detours/disasm.cpp:442-655 | each prefix sets the flags that the decoding of the rest depends on |
| Disassembler.CDetourDis.Copy0F | lib/detours/disasm.cpp:586-591 | two-byte opcodes are relocated as one instruction with their escape byte; of UD0 and UD1 only that byte is copied |
| Disassembler.CDetourDis.Dispatch0F | lib/detours/disasm.cpp:593-631 | the special two-byte opcodes are copied whole; those without an entry are passed over |
| Disassembler.CDetourDis.CopyF6 | lib/detours/disasm.cpp:657-675 | F6 has an immediate byte only for TEST |
| Disassembler.CDetourDis.CopyF7 | lib/detours/disasm.cpp:677-695 | F7 has an operand-sized immediate only for TEST |
| Disassembler.CDetourDis.CopyFF | lib/detours/disasm.cpp:697-746 | FF is relocated as the manual has it; the reported target is the word at the absolute address an indirect call or jump names, if the noted segment override is none or CS, and unknown for the other indirect ones |
| Disassembler.CDetourDis.CopyVexEvexCommon | lib/detours/disasm.cpp:748-785 | the payload selects the map, and the instruction is copied as that map's entry reads it; nothing is copied of the opcodes 7A and 7B |
| Disassembler.CDetourDis.CopyEvex | lib/detours/disasm.cpp:847-885 | the four bytes of EVEX are copied before the rest, with the flags that its payload sets |
| Disassembler.CDetourDis.CopyXop | lib/detours/disasm.cpp:887-921 | 8F is XOP or POP by its next byte |
| Relocation.OneByteFixes | lib/detours/disasm.cpp:961-1300 | what an entry promises about size and target holds of the instruction that is decoded there, its ModR/M measured as that of a 32-bit address |
| Relocation.TwoByteFixes | lib/detours/disasm.cpp:1308-1600 | the same for two-byte opcodes |
| Meaning.DecodeIsLocal | lib/detours/disasm.cpp:342-440 | an instruction is decoded from its own bytes alone, wherever it stands |
| Meaning.ReadIsLocal | lib/detours/disasm.cpp:342-440 | whether the copier reads it as what it is depends on those bytes alone as well |
| Meaning.EmittedDecodes | lib/detours/disasm.cpp:463-574 | the relocated bytes decode to one instruction: the original with its new displacement, widened where it is |
| Meaning.CopyKeepsMeaning | lib/detours/disasm.cpp:463-574 | a moved instruction keeps its meaning (same effect, same condition, same target modulo 2^32, claimed length) if and only if it is `Faithful`: no LOOP/JECXZ whose byte does not fit, no 66 prefix on a branch, no XBEGIN |
| Meaning.TargetKept | lib/detours/disasm.cpp:496-574 | the copy has the claimed length if and only if it is `Faithful`, and, whatever its length, it goes where the original goes if and only if `TargetStays`: always for 32-bit fields, modulo 2^16 for 16-bit ones, for one-byte ones if the displacement fits, never for a short jump behind a 66 prefix |
| Prologue.EndsFunctionIff | lib/detours/detours.cpp:249-276 | an instruction is taken for the end of a function if and only if it never falls through and is none of those named in `EndUnseen` (far returns, IRET, far JMP, UD0 and UD1, indirect jumps but through an absolute address, and prefixed forms but F3 C3 and a segment before FF 25), or it is LOOPNE |
| Prologue.OnlyTheLastEnds | lib/detours/detours.cpp:2263-2286 | of the instructions that are moved only the last never falls through, those named ones excepted: nothing is moved from behind a return |
| Prologue.FillerIff | lib/detours/detours.cpp:278-335 | padding is exactly: a breakpoint, NOP with at most one 66 prefix, and 0F 1F /0 with zeros behind ModR/M 00, 40, 44, 80 or 84, with at most one 66 prefix at 44 and three at 84; and its size is that of the instruction |
| Prologue.PaddingDecodes | lib/detours/detours.cpp:278-335 | each is one instruction of that size, which is a breakpoint or leaves the flow of control alone |
| Prologue.OnlyPaddingBehind | lib/detours/detours.cpp:2288-2297 | what is taken behind the moved instructions is nothing but padding, as much as a jump needs; if there is not enough, what follows is none |
| Prologue.FillerIsDead | lib/detours/detours.cpp:2288-2297 | padding is only consumed behind an instruction that never falls through to it |
| Prologue.SizeBound | lib/detours/detours.cpp:2263-2349 | the copy loop moves at most five instructions; if none is longer than 13 bytes when copied, code and jump fit `rbCode[30]` and the saved bytes fit `rbRestore[22]` |
| Prologue.MovableIsFaithful | lib/detours/disasm.cpp:463-574 | every movable instruction is kept faithfully at every distance, and grows by at most four bytes |
| Prologue.AlignFromTarget | lib/detours/detours.cpp:1750-1758 | finds the first alignment entry for a target offset |
| Prologue.AlignFromTrampoline | lib/detours/detours.cpp:1740-1748 | finds the first alignment entry for a trampoline offset |
| Prologue.ThreadsLeaveTarget | lib/detours/detours.cpp:1750-1758 | despite the 3-bit field every moved instruction is found by its offset, offset 0 if and only if the moved prologue is not 8 or 16 bytes long |
| Prologue.ThreadsLeaveTrampoline | lib/detours/detours.cpp:1740-1748 | every instruction of the trampoline is found by its offset, the jump behind them if and only if the moved prologue is at most 7 bytes long |
| Prologue.RepairsAreInverse | lib/detours/detours.cpp:1740-1758 | for moved prologues of at most 7 bytes the two maps are inverse on all boundaries, both ends included |
| MovedCode.MoveInstruction | lib/detours/detours.cpp:2264-2285 | one turn of the copy loop, for any instruction the manual defines: it is copied as it is read, the sizes grow by what was read and by the claimed extra length, an alignment entry is set and nothing else written; the loop goes on with the next instruction if and only if this one is `ReadRight` |
| MovedCode.MoveInstructions | lib/detours/detours.cpp:2263-2286 | the copy loop moves exactly the planned instructions, one after the other, and records their boundaries |
| MovedCode.LayoutIs | lib/detours/detours.cpp:114-127 | the offsets of a trampoline's fields follow from their sizes and alignments in the order declared, 72 bytes in all |
| Builder.FillBreaks | lib/detours/detours.cpp:149-155 | fills a range with breakpoints |
| Builder.BreaksStop | lib/detours/detours.cpp:149-155 | whatever byte of it is executed, a breakpoint stops there |
| Builder.SkipFiller | lib/detours/detours.cpp:2288-2297 | takes padding until a jump fits |
| Builder.FinishTrampoline | lib/detours/detours.cpp:2335-2400 | the finished trampoline: saved bytes, sizes, pbRemain, pbDetour, moved code, jump back, breakpoints, alignment |
| Builder.BuildTrampoline | lib/detours/detours.cpp:2219-2400 | fails if and only if function and padding are too short for a jump; otherwise the trampoline is finished; only the trampoline is written |
| Builder.UsualPrologueMoves | lib/detours/detours.cpp:2263-2286 | an example: a frame set-up followed by a short conditional jump can be moved, and its copy is four bytes longer |
| Builder.MovesIsLocal | lib/detours/detours.cpp:2263-2297 | what is moved and taken depends on 32 bytes from the target on |
| Builder.BuiltIsLocal | lib/detours/detours.cpp:2263-2400 | and so does whether a trampoline is right for its target |
| Simulation.CopySimulates | lib/detours/disasm.cpp:342-574 | one step of the copy does what one step of the original does: the same event, condition and next instruction; the data and the address it leaves to are the same if and only if what it reads or calls acts alike in both memories |
| Simulation.MovedCodeSimulates | lib/detours/detours.cpp:2263-2286 | from any instruction on, as long as what it executes acts alike in both memories, the moved prologue runs the same instructions in the same order on the same data, makes the same calls and branches to the same addresses, or falls through at its end when the original does |
| Simulation.JumpGoes | lib/detours/detours.cpp:133-139 | the generated jump goes to its target modulo 2^32 |
| Simulation.TrampolineIsPrologue | lib/detours/detours.cpp:2263-2400 | under the same condition, running the trampoline and its jump meets the original run where that leaves the prologue, at the same address with the same data after the same events; a fall-through ends at target + cbTarget |
| Simulation.TrampolineIsOriginal | lib/detours/detours.cpp:2263-2400 | a call through the trampoline runs, step for step, what a call of the unhooked target runs, as long as that executes no changed byte and makes no call and reads nothing that acts differently with them changed |
| Simulation.RunsPartWhereUnlike | lib/detours/detours.cpp:2263-2400 | and no longer: at the first instruction that does act differently the two runs part |
| Simulation.RunsPartInTarget | lib/detours/detours.cpp:1838-1843 | where the original goes on at the target's first byte, the hooked program enters the detour, and the runs part there unless the original's instruction goes there without an effect |
| Simulation.RecursionRunsDetour | lib/detours/detours.cpp:1838-1843 | the exception is a target that calls itself: that call enters the detour, and acts alike if and only if the detour does what the target did |
| Threads.RepairThread | lib/detours/detours.cpp:1945-1985 | one suspended thread is sent on by each pending operation in order, from where the one before it left it |
| Threads.RepairThreads | lib/detours/detours.cpp:1945-1985 | the same for all suspended threads |
| Threads.RepairIs | lib/detours/detours.cpp:1945-1985 | what that comes to for any queue without a hook removed twice: the first operation whose code the thread is in decides; an attachment's answer is final, a removal's is final if and only if no later operation's target contains it, and else that operation, an older attachment, sends the thread on |
| Threads.SeparateRepairs | lib/detours/detours.cpp:1945-1985 | for operations on targets that do not overlap every thread ends where the operation it is in sends it |
| Threads.AttachMovesThreads | lib/detours/detours.cpp:1966-1981 | a thread stopped at instruction k of the prologue is sent to its copy, with the one exception of offset 0, and goes on there as it would have as long as what it executes acts alike |
| Threads.DetachMovesThreads | lib/detours/detours.cpp:1950-1965 | a thread stopped in the trampoline is sent back to where it belongs, at the jump if and only if at most 7 bytes were moved |
| RegionSearch.RegionFromLo | lib/detours/detours.cpp:1315-1360 | terminates, and returns the lowest usable aligned region of the window; missed are only regions within 128 MB above the reserved range, and those above an address between the lower end and them at which the system stopped the search |
| RegionSearch.RegionFromHi | lib/detours/detours.cpp:1364-1411 | terminates, and returns the highest usable aligned region of the window; missed are only regions within 128 MB below the reserved range, and those below an address between them and the upper end at which the system stopped the search |
| RegionSearch.AllocateNew | lib/detours/detours.cpp:1413-1451 | the order of the searches: in the 32-bit variant the region found is the highest usable one below the target, and if the search comes to none there the lowest one above; in the 64-bit variant one less than a gigabyte away is found only if none farther is; none is found only if each usable one of the window is among those exceptions, with an address between it and the target at which the search stopped |
| RegionSearch.AlignedAvoidsReserved | lib/detours/detours.cpp:1315-1411 | a usable region does not overlap the range reserved for system DLLs |
| RegionSearch.UsableIs | lib/detours/detours.cpp:1315-1345 | a region is usable if and only if it is free and granted, in units of 64 KB and outside 7000_0000h to 8000_0000h |
| RegionSearch.WindowReaches | lib/detours/detours.cpp:96-108 | within the jump bounds every displacement fits a signed 32-bit field: that of the jump to any byte of the trampoline, and that of the target's own E9 moved there, in the 32-bit and the 64-bit variant |
| RegionSearch.WindowIs | lib/detours/detours.cpp:96-108 | the jump bounds are exactly what is within reach: at most 7ff8_0000h from the target and from where its own jump leads, and not within 512 KB of either end of memory, unless one of these is too high for that to matter |
| Trampolines.HeaderIs | lib/detours/detours.cpp:1253-1258 | the offsets of a region's header fields follow from their sizes in the order declared |
| Trampolines.RegionIsFull | lib/detours/detours.cpp:1262-1264 | header and slots of a region do not overlap, 72 bytes each, and no slot more would fit |
| Trampolines.RegionAtHandIsFound | lib/detours/detours.cpp:1413-1546 | a usable region within reach that the search comes to, with none out of reach before it, is enough for the target to get a slot |
| Trampolines.CoversIs | lib/detours/detours.cpp:1413-1453 | all slots of a region lie in the jump bounds of a target if and only if all its addresses are within reach |
| Trampolines.ChainIsUnique | lib/detours/detours.cpp:1478-1557 | a chain is determined by its head |
| Trampolines.ChainHasNoRepeats | lib/detours/detours.cpp:1478-1557 | so every chain is acyclic and free of duplicates |
| Trampolines.MaskFindsRegion | lib/detours/detours.cpp:1549-1557 | masking a slot's address finds the region that owns it |
| Trampolines.TakeKeepsRegion | lib/detours/detours.cpp:1498-1506 | taking the first free slot keeps the region: its free chain lists exactly the slots not in use |
| Trampolines.ReturnKeepsRegion | lib/detours/detours.cpp:1549-1557 | giving a slot in use back keeps it as well |
| Trampolines.ReturnTwiceMakesRing | lib/detours/detours.cpp:1549-1557 | in a region whose chain is whole, after a slot is given back the chain is finite if and only if the slot was in use: giving it back twice closes a ring |
| Trampolines.ReturnEnds | lib/detours/detours.cpp:1549-1557 | in whatever state a region is: the chain is finite afterwards if and only if it was and did not hold the slot |
| Trampolines.FreedChain | lib/detours/detours.cpp:1989-2005 | any list of slots in use is given back: a region's chain stays finite if and only if none of its slots is listed twice, and then lists exactly the slots not in use |
| Trampolines.TrampolineHeap.Return | lib/detours/detours.cpp:1549-1557 | the writes of giving any slot back, in use or not |
| Trampolines.TrampolineHeap.constructor | lib/detours/detours.cpp:1265-1266 | no regions, nothing in use |
| Trampolines.TrampolineHeap.TakeSlot | lib/detours/detours.cpp:1498-1506 | hands out the first free slot if it lies in the window, filled with breakpoints; nothing else changes |
| Trampolines.TrampolineHeap.HasSlot | lib/detours/detours.cpp:1494-1496 | whether a region's first free slot lies in the window |
| Trampolines.TrampolineHeap.AddRegion | lib/detours/detours.cpp:1525-1541 | sets up a new region whose slots 2 to 908 are chained in order, in front of the others |
| Trampolines.TrampolineHeap.ScanRegions | lib/detours/detours.cpp:1509-1515 | makes the first region that serves the default one, and none if none does |
| Trampolines.TrampolineHeap.AllocateInNewRegion | lib/detours/detours.cpp:1517-1546 | a slot of a new region, if one is found and its first slot lies in the window; without a new region, for every usable region of the window the search stopped between it and the target |
| Trampolines.TrampolineHeap.AllocateMore | lib/detours/detours.cpp:1517-1546 | the same in terms of what is within reach of the target |
| Trampolines.TrampolineHeap.Allocate | lib/detours/detours.cpp:1478-1547 | returns a slot that is not in use, within reach of the target: from the default region if it serves, from the first that does, or else from a new one, which is the one the search finds; it fails if and only if no region's first free slot is within reach, and no new region is found or the first slot of the one found is not within reach, and none is found only if every usable one within reach lies behind an address at which the search stops; slots in use and memory outside the regions stay; every region's free chain keeps listing exactly the slots not in use |
| Trampolines.TrampolineHeap.Free | lib/detours/detours.cpp:1549-1557 | gives a slot in use back in front of its region's chain |
| Trampolines.TrampolineHeap.ListRegions | lib/detours/detours.cpp:1268-1278 | a walk along the list of regions visits them all in order |
| Trampolines.TrampolineHeap.IsRegionEmpty | lib/detours/detours.cpp:1559-1581 | the scan says empty exactly when no slot in use has its pbRemain outside the region |
| Trampolines.TrampolineHeap.DropRegion | lib/detours/detours.cpp:1589-1594 | unlinks one region in place |
| Trampolines.TrampolineHeap.SweepRegion | lib/detours/detours.cpp:1588-1599 | one turn of the reclamation loop |
| Trampolines.TrampolineHeap.FreeUnusedRegions | lib/detours/detours.cpp:1583-1600 | the in-place edit leaves exactly the regions with a slot in use, in order; the default region is one of them or null |
| Pages.PutBackRestores | lib/detours/detours.cpp:2414-2419 | putting back what VirtualProtect reported restores the protections if and only if the pages of the range were protected alike, as they always are within one page, that is if its first and last byte are on the same one |
| Pages.ProtectedIs | lib/detours/detours.cpp:2414-2419 | VirtualProtect sets exactly the 4096-byte pages that hold a byte of the range |
| Pages.UndoneIffRestorable | lib/detours/detours.cpp:1989-2004 | undoing any list of changes newest first restores the protections if and only if for every page the oldest change that touches it reported what that page was |
| Pages.RestorableIffRecoverable | lib/detours/detours.cpp:2414-2447 | which is known from the targets and the protections at the start: for every change and every page it is the first to touch, that page was protected like the page of the change's first byte, or was writable if an older change had touched the latter |
| Pages.OnePageRestores | lib/detours/detours.cpp:1989-2004 | changes that lie within one page each are always undone, however many touch the same page |
| Pages.PushKeepsUndone | lib/detours/detours.cpp:2414-2447 | one more change keeps what undoing all changes newest first arrives at |
| Pages.OldestFirstLeavesWritable | lib/detours/detours.cpp:1989-2004 | undone oldest first, a page shared by two targets would stay writable |
| Pages.PageTable.Protect | lib/detours/detours.cpp:2414-2419 | VirtualProtect acts on every page of the range and reports the first |
| Targets.HookedIsFoundAgain | lib/detours/detours.cpp:157-221 | a hooked function is found through a pointer to it, but through a short jump to it its first detour is found instead |
| Targets.ImportIsFound | lib/detours/detours.cpp:168-177 | a pointer to the stub of an imported function finds the function, unless that starts with a short jump |
| Targets.PatchIsFound | lib/detours/detours.cpp:179-195 | behind a short jump an import stub is followed as well, and other code but a near jump is what is found |
| Targets.CodeIsFound | lib/detours/detours.cpp:157-221 | all other code is what a pointer to it finds |
| Targets.NearTargetIs | lib/detours/detours.cpp:232-247 | the jump bounds take account of a near jump at the target's start exactly if the processor finds one there, and of where it goes |
| Targets.TrampolineIsItsCode | lib/detours/detours.cpp:2541-2543 | a trampoline's code never starts with a jump that is followed, so detaching finds the trampoline |
| Edits.CommitWritesMapped | lib/detours/detours.cpp:1783-1843 | a commit writes the program's memory only, never trampoline space |
| Edits.SeparateAllTakeEffect | lib/detours/detours.cpp:1783-1843 | operations whose written ranges do not overlap all take effect, whatever their order |
| Edits.OperationStands | lib/detours/detours.cpp:1783-1843 | for any transaction: an operation's bytes stand after the commit if and only if every byte of them is either not written by later edits or written last with the same value |
| Edits.NewerStandsIffAgreed | lib/detours/detours.cpp:1783-1843 | of two operations, at any two targets, the newer one's bytes stand if and only if the older one's agree with them where they overlap |
| Edits.SameTargetOldestWins | lib/detours/detours.cpp:1783-1843 | two attachments to one target in one transaction: the target jumps to the older one's detour, and to the newer one's if and only if it is the same |
| Transactions.Detours.Begin | lib/detours/detours.cpp:1667-1689 | only one transaction at a time; a failure to make the regions writable leaves it pending in error |
| Transactions.Detours.AttachSlot | lib/detours/detours.cpp:2219-2449 | builds the trampoline and queues the operation, or gives the slot back; the error is that of the block or of VirtualProtect |
| Transactions.Detours.AttachResolved | lib/detours/detours.cpp:2178-2449 | from the allocation on: every failure leaves nothing queued and no slot taken; it fails for want of memory only if the operation could not be allocated, or no region has a slot within reach of the target and no new one can be had that would (`Starving`); a new region is the one that the search finds |
| Transactions.Detours.Attach | lib/detours/detours.cpp:2083-2450 | callers without the transaction and pending errors change nothing; each failure is reported, sticky as the source has it, and leaves nothing queued; for want of memory it fails only if the operation could not be allocated, or no region has a slot within reach and no new one can be had that would; success queues exactly one finished operation; a detour that is its own target is neither queued nor reported |
| Transactions.Detours.Detach | lib/detours/detours.cpp:2452-2589 | queues the removal of a hook if its detour is given, also a second time, with the error codes in the source's order, and refuses what is no hook; otherwise nothing changes |
| Transactions.Detours.CarryOut | lib/detours/detours.cpp:1784-1843 | one operation writes its target and its pointer |
| Transactions.Detours.CarryOutAll | lib/detours/detours.cpp:1783-1843 | the first loop of a commit carries out every operation in list order |
| Transactions.Detours.ReleaseEach | lib/detours/detours.cpp:1989-2005 | the last loop of a commit and of an abort, for any queue: each protection is put back with the size the trampoline still records, and the trampolines of the removals, or of the attachments, are given back |
| Transactions.Detours.Release | lib/detours/detours.cpp:1989-2005 | what that comes to when no trampoline is given back twice: the changes are undone newest first and the free chains stay whole |
| Transactions.DetachTwice | lib/detours/detours.cpp:2452-2589 | a hook detached twice in a transaction: both calls succeed, the free chain of its region has no end afterwards, and the target's page is left writable |
| Transactions.Detours.Abort | lib/detours/detours.cpp:1691-1733 | the program's memory and the slots in use are as when the transaction began, and its protections if and only if every page's oldest change had reported what it was |
| Transactions.Detours.Commit | lib/detours/detours.cpp:1760-2032 | carries out every queued operation, undoes the changes to protections (with the same exact condition for their restoration), sends each suspended thread where the operations send it, frees the removed trampolines and reclaims empty regions; with a pending error it does what an abort does |
| Transactions.PendingPushed | lib/detours/detours.cpp:2441-2447 | one more queued operation keeps the transaction undoable |
| Transactions.PendingRestores | lib/detours/detours.cpp:1989-2004 | for every pending transaction: undoing its changes restores the protections at its beginning if and only if they are restorable, as they are if every target lies within a page |
| Transactions.TargetsAreWritable | lib/detours/detours.cpp:2414-2430 | every byte that a commit will write at a target is by then on a page that is PAGE_EXECUTE_READWRITE |
| HookStack.DetoursRunNewestFirst | lib/detours/detours.cpp:1838-1843 | with any number of hooks on one target, a call enters the detour attached last, and a call through a hook's pointer the one attached before it |
| HookStack.OldestRunsOriginal | lib/detours/detours.cpp:2263-2400 | a call through the oldest hook's pointer runs what a call of the unhooked target runs, step for step, under the condition of `Simulation.TrampolineIsOriginal` |
| HookStack.RecursionRunsNewest | lib/detours/detours.cpp:1838-1843 | the exception: where the original calls its target itself, the newest detour runs, and the run goes on as the original's if and only if the detour has the effect the target had |
| HookStack.HookAdded | lib/detours/detours.cpp:1838-1843 | a committed attachment puts one more hook on the stack |
| HookStack.HookRemoved | lib/detours/detours.cpp:1784-1794 | a committed removal takes the top hook off and its pointer back to the target |
| HookOrder.AnyRemoved | lib/detours/detours.cpp:1784-1794 | a committed removal of any hook: its pointer is reset and the target becomes what lay under it, the next older detour's jump or the original code; the remaining hooks are stacked if it was the newest, and if they are although it was not, then what lay under it was the newest one's detour all the same |
| HookOrder.RemovedComesBack | lib/detours/detours.cpp:1784-1794 | if the hook above a removed one is removed next, the target jumps to the detour that was removed first, and that one's pointer holds the target |
| HookOrder.RemovedCallsItself | lib/detours/detours.cpp:1784-1794 | so a call of the target enters the removed detour, and what that calls through its pointer enters it again |
| HookStack.AttachHook | lib/detours/detours.cpp:2083-2450 | one transaction with one attachment adds a hook in a fresh slot, or leaves the stack, the slots and the protections as they were; with a slot at hand or a region to be had, memory and access granted and room for a jump it succeeds |
| HookStack.DetachHook | lib/detours/detours.cpp:2452-2589 | one transaction with one removal takes the top hook off and frees its slot; it fails only for want of memory or access, and then changes nothing |
| HookStack.CoversAllIs | lib/detours/detours.cpp:228-247 | and whatever hook is on top, if and only if they are near the target and each detour as well |
| HookStack.StackHooks | lib/detours/detours.cpp:2083-2450 | attaches the hooks one after the other, each in a transaction of its own, until one fails, for whatever reason; with room in a region, or no region yet and one to be had, and nothing refused none does |
| HookStack.UnstackHooks | lib/detours/detours.cpp:2452-2589 | detaches them again, newest first, down to the target as it was |
| HookStack.HookAndUnhook | lib/detours/detours.cpp:1783-1843 | any number of hooks stacked in successive transactions, as far as that succeeds, and detached in reverse order: every byte of the program is as before, target and pointers included, the same slots are in use, and the page protections are as before if and only if nothing was attached or the target's pages were protected alike; all hooks are stacked in between if a region has a slot within reach for each, or there is none yet and whichever the search finds has |
| Installer.OtherThread | lib/detours/detours.cpp:1667-1775 | no attach, detach, commit, abort or begin by another thread changes anything of a pending transaction |
| Installer.InstallOne | src/EntryPoint/DllMain.cpp:115-124 | one attach of the installer keeps the queue in step with what was asked |
| Installer.InstallHooks | src/EntryPoint/DllMain.cpp:104-141 | whatever other threads call meanwhile, either the hooks asked for are attached, each in place if no two write the same bytes, or the program's memory and the slots in use are as before; the call that failed is the one at the reported pointer, refused with the reported error, and nothing speaks against any before it; for want of a slot it was refused only if none of the regions there were had one within reach and the system none to give that would; the page protections are as before if and only if the ranges of the calls before the failing one, of all calls if none failed, are recoverable; it succeeds if nothing is refused and a region has a slot within reach for each, or whichever new region the search finds will have |
| Installer.CommitOrAbort | src/EntryPoint/DllMain.cpp:125-141 | its end: a commit puts the hooks in place, an abort takes everything back |
| Arm64.BccDecodes | lib/detours/disasm.cpp:3694-3714 | the assembler of B.cond makes the instruction of the Arm manual |
| Arm64.BDecodes | lib/detours/disasm.cpp:3716-3736 | the same for B and BL |
| Arm64.BrDecodes | lib/detours/disasm.cpp:3738-3766 | the same for BR and BLR |
| Arm64.CbzDecodes | lib/detours/disasm.cpp:3768-3790 | the same for CBZ and CBNZ |
| Arm64.MovDecodes | lib/detours/disasm.cpp:3845-3874 | the same for MOVN, MOVZ and MOVK |
| Arm64.TbzDecodes | lib/detours/disasm.cpp:3876-3900 | the same for TBZ and TBNZ |
| Arm64.AdrDecodes | lib/detours/disasm.cpp:3668-3692 | the same for ADR and ADRP |
| Arm64.AddDecodes | lib/detours/disasm.cpp:3641-3666 | the same for ADD (immediate), in both widths |
| Arm64.LdrDecodes | lib/detours/disasm.cpp:3792-3816 | the same for literal loads, whatever the displacement, of which 19 bits are kept |
| Arm64.LdrVectorDecodes | lib/detours/disasm.cpp:3818-3843 | the same for loads of a vector register |
| Arm64Relocator.CDetourDis.EmitMovImmediate | lib/detours/disasm.cpp:3984-4033 | for every register and every 64-bit value, one to four moves that leave exactly that value in the register and nothing else changed, the fewest by skipping half-words of zeros or ones; the byte length is returned |
| Arm64Relocator.CDetourDis.CopyBcc | lib/detours/disasm.cpp:4089-4121 | appends a copy in the nearest form, right in every state if and only if the condition has an opposite or is not inverted |
| Arm64Relocator.CDetourDis.CopyB_or_Bl | lib/detours/disasm.cpp:4123-4146 | appends a copy that is right in every state |
| Arm64Relocator.CDetourDis.CopyCbz | lib/detours/disasm.cpp:4158-4190 | appends a copy that is right in every state if and only if the tested register is not X17 in the far form |
| Arm64Relocator.CDetourDis.CopyTbz | lib/detours/disasm.cpp:4192-4224 | the same for TBZ and TBNZ |
| Arm64Relocator.CDetourDis.CopyAdr | lib/detours/disasm.cpp:4035-4087 | appends code that leaves the address in the register, in the nearest form, right in every state if and only if `AddressStays` |
| Arm64Relocator.CDetourDis.LiteralAt | lib/detours/disasm.cpp:4240-4249 | the constant that stands for an integer literal: a word, a double word, or a sign-extended word |
| Arm64Relocator.CDetourDis.CopyLdrLiteral | lib/detours/disasm.cpp:4226-4262 | appends code that loads what the literal load loads, right in every state if and only if `LiteralStays` |
| Arm64Relocator.CDetourDis.CopyInstruction | lib/detours/disasm.cpp:3945-3982 | for every word: B, BL, B.cond, CBZ, CBNZ, TBZ, TBNZ, ADR, ADRP and the literal loads are relocated with those conditions, other instructions, BC.cond among them, copied; the extra length, the reported target and the next address |
| Arm64Relocator.CopyIsRightIff | lib/detours/disasm.cpp:4089-4224 | for every distance: a copied branch goes to the original target under the original condition and otherwise on behind the copy, in every state, if and only if it is `Relocatable` |
| Arm64Relocator.ConsistentIsRightIff | lib/detours/disasm.cpp:3945-3982 | BC.cond is copied as it is: the copy does the same in exactly those states in which it is not taken, and in every state if and only if it is not moved |
| Arm64Literals.AddressIsRightIff | lib/detours/disasm.cpp:4035-4087 | for every distance: a copied ADR or ADRP leaves the same address and changes nothing else, in every state, if and only if it is not an ADR that takes ADRP and ADD, or it names an address below 4 GB and not register 31; the addition is made in 32 bits |
| Arm64Literals.LiteralIsRightIff | lib/detours/disasm.cpp:4226-4262 | for every distance: a copied literal load has the same effect in every state (in every state with the same literal, where it became a constant), if and only if a load that keeps its form is within 1 MB or has no effect, and a prefetch out of reach hints with number 31 |
| Witnesses.EvexWithImplied66 | lib/detours/disasm.cpp:593-609 | an input: 62 F1 7D 48 78 C9 is six bytes long and read as eight |
| Witnesses.EvexWithoutPrefix | lib/detours/disasm.cpp:593-609 | an input: with pp 0 the same opcode is read right |
| Witnesses.EvexWithoutEntry | lib/detours/disasm.cpp:1446-1447 | an input: of 62 F1 7E 48 7A C9 four bytes are copied and the fifth passed over |
| Witnesses.Ud1WithoutEntry | lib/detours/disasm.cpp:586-591 | an input: of 0F B9 C1 one byte is copied and the second passed over |
| Witnesses.SixteenBitAddress | lib/detours/disasm.cpp:942-959 | an input: 67 8B 06 34 12 is five bytes long and read as three |
| Witnesses.LoopDoesNotReach | lib/detours/disasm.cpp:496-574 | an input: LOOP moved by a page is wrong, and said to be three bytes shorter |
| Witnesses.PrefixedJump | lib/detours/disasm.cpp:463-494 | an input: 66 EB 05 is wrong wherever it is moved, and its copy shorter than claimed |
| Witnesses.XbeginIsNotRelocated | lib/detours/disasm.cpp:961-1300 | an input: XBEGIN is copied as it stands |
| Witnesses.LoopneFallsThrough | lib/detours/detours.cpp:249-276 | an input: LOOPNE is taken for the end of a function, but falls through |
| Witnesses.EightBytePrologue | lib/detours/detours.cpp:1740-1758 | an input: of a prologue of eight bytes a thread at the first is sent behind the moved code, and one at the jump behind it to the first |
| Witnesses.ShortFunctionIsNotTaken | lib/detours/detours.cpp:2263-2297 | an input: of XOR EAX, EAX and RET directly before the next function only these three bytes are taken, too few for a jump |
| Witnesses.LoopToTheTarget | lib/detours/detours.cpp:1838-1843 | an input: five INC EAX and a jump back to the first; behind the moved code the original goes on with INC EAX, the hooked program enters the detour |
| Witnesses.CrossingBehindAnother | lib/detours/detours.cpp:1989-2004 | an input: pages protected alike, and yet not restored |
| Witnesses.CrossingBehindBoth | lib/detours/detours.cpp:1989-2004 | an input: pages protected differently, a target that crosses, and yet restored |
| Witnesses.FoundOutOfReach | lib/detours/detours.cpp:1364-1546 | an input: a target that jumps far down gets no slot, although a usable region is within reach, since the search finds one above it first that is not |
| Witnesses.AdrAboveFourGigabytes | lib/detours/disasm.cpp:4049-4053 | an input: ADR at 5 GB moved by 16 MB |
| Witnesses.LiteralBeyondOneMegabyte | lib/detours/disasm.cpp:4233-4237 | an input: a literal load moved by 1 MB reads 2 MB away from its literal |
| Witnesses.PrefetchOutOfReach | lib/detours/disasm.cpp:4239-4250 | an input: a prefetch moved by 16 MB becomes a move |
| Witnesses.BranchesThatAreNotInverted | lib/detours/disasm.cpp:4089-4190 | an input: B.AL out of reach of a conditional branch, and CBZ X17 out of reach of any |
| Witnesses.ConsistentBranchIsNotRelocated | lib/detours/disasm.cpp:3945-3982 | an input: BC.EQ, two instructions ahead, goes wrong in some state wherever it is moved |
| FeatureRegistry.TokenRoundTrip | src/Handshake/FeatureMagic.hpp:19-47 | exactly one number is the token of a feature and a release, and these are read back from it |
| FeatureRegistry.ActiveIffAcceptedSince | src/Handshake/FeatureRegistry.cpp:119-171 | over every run, a feature is active exactly when an accepted matching token followed its last reset and its last mismatching token |
| FeatureRegistry.ActivationsBalance | src/Handshake/FeatureRegistry.cpp:36-43 | over every run, accepted activations minus deactivations of a handler is 1 when the feature is active and 0 otherwise |
| FeatureRegistry.FeatureRegistry.constructor | src/Handshake/FeatureRegistry.cpp:22-27 | an empty table |
| FeatureRegistry.FeatureRegistry.Find | src/Handshake/FeatureRegistry.cpp:29-34 | finds the feature's entry, or that it is not registered |
| FeatureRegistry.FeatureRegistry.IsValidFeatureName | src/Handshake/FeatureRegistry.cpp:45-56 | 1 to 64 printable ASCII characters |
| FeatureRegistry.FeatureRegistry.Register | src/Handshake/FeatureRegistry.cpp:60-80 | accepts a new feature while there is room, and an exact repetition; refuses anything else |
| FeatureRegistry.FeatureRegistry.IsActive | src/Handshake/FeatureRegistry.cpp:94-97 | answers what the run of events says |
| FeatureRegistry.FeatureRegistry.HandleServerToken | src/Handshake/FeatureRegistry.cpp:119-163 | the outcome is that of the run of events; the table stays consistent with it, and entries of other features stay as they are |
| FeatureRegistry.FeatureRegistry.Advertise | src/Handshake/FeatureRegistry.cpp:133-162 | the part for a known feature: its entry, its handler's calls and the outcome |
| FeatureRegistry.FeatureRegistry.Deactivate | src/Handshake/FeatureRegistry.cpp:36-43 | tells the handler exactly if the feature was active |
| FeatureRegistry.FeatureRegistry.Reset | src/Handshake/FeatureRegistry.cpp:165-171 | the table is consistent with one more reset: nothing is active, every notice can be issued again |
| FeatureHandshake.AlwaysRoom | src/Handshake/FeatureHandshakePatch.cpp:106-125 | pending ids are distinct and registered, so that the 32-entry table has room for every registered feature |
| FeatureHandshake.FeatureHandshakePatch.QueueMismatchNotice | src/Handshake/FeatureHandshakePatch.cpp:106-125 | queues one notice in a free entry unless one is pending already for the feature; it never reports a full table |
| FeatureHandshake.FeatureHandshakePatch.ClearPendingMismatchNotices | src/Handshake/FeatureHandshakePatch.cpp:100-104 | empties the table |
| FeatureHandshake.FeatureHandshakePatch.EnterInstance | src/Handshake/FeatureHandshakePatch.cpp:442-446 | an instance boundary drops what is pending and resets the registry, so that every feature may ask again |
| FeatureHandshake.FeatureHandshakePatch.TakeReady | src/Handshake/FeatureHandshakePatch.cpp:177-188 | takes exactly the thread's notices off the table, in order |
| FeatureHandshake.FeatureHandshakePatch.DeliverPendingMismatchNotices | src/Handshake/FeatureHandshakePatch.cpp:163-202 | shows every notice that is ready, in table order and on its thread, whatever is dispatched while one is shown, and those behind an instance boundary dispatched meanwhile as stale ones; and nothing else, if nothing is dispatched; without the chat manager nothing changes |
| FeatureHandshake.FeatureHandshakePatch.ReceiveToken | src/Handshake/FeatureHandshakePatch.cpp:402-427 | a reserved token reaches the registry, and queues exactly one notice, for its own feature and releases, when the run of events says that one is due |
| FeatureHandshake.FeatureHandshakePatch.ShowAll | src/Handshake/FeatureHandshakePatch.cpp:189-201 | shows what a delivery has taken in order, while nested deliveries neither take nor repeat any of it; if an instance boundary is dispatched while the first is shown, all behind it are stale, of the instance before; the first never is |
| FeatureHandshake.FeatureHandshakePatch.BeforeOriginal | src/Handshake/FeatureHandshakePatch.cpp:389-464 | what comes before the original is called: the registry hears of a token or boundary, and what is pending for the thread and what is due is shown, each once, if the chat manager is there and unless it is a boundary; and nothing else, if nothing is dispatched meanwhile |
| FeatureHandshake.FeatureHandshakePatch.Call | src/Handshake/FeatureHandshakePatch.cpp:383-470 | across all runs with nested events: reserved tokens are consumed, everything else reaches the original, and the registry hears of tokens and boundaries first, once each; every notice queued is pending, in delivery, shown or dropped exactly once; each feature queues at most one between resets, and none is shown twice between resets but for stale notices; with the chat manager there, what is pending for the thread and what is due is shown at once, and nothing else unless further events are dispatched |
| AudioSchedule.SixtyIntervals | src/ClientPatches/PerformanceOptimizations/Audio/AudioUpdatePolicy.hpp:40-41 | sixty intervals are a second, as near as whole ticks allow, for any clock of at least sixty ticks a second |
| AudioSchedule.UpdateSchedule.ShouldRunUpdate | src/ClientPatches/PerformanceOptimizations/Audio/AudioUpdatePolicy.hpp:29-61 | a call updates if it starts a run of calls or is the first in its grid cell; a skipped call comes less than an interval, and less than a sixtieth of a second, after the last update, and the next one is due within an interval of it |
| AudioSchedule.UpdateSchedule.Reset | src/ClientPatches/PerformanceOptimizations/Audio/AudioUpdatePolicy.hpp:25-27 | forgets the run of calls |
| AudioSchedule.PlayThrough | src/ClientPatches/PerformanceOptimizations/Audio/AudioUpdatePolicy.hpp:29-61 | over a run of realtime calls with non-decreasing ticks, exactly the first call in each grid cell updates, and no span shorter than a second has more updates than `MostInASecond` |
| AudioSchedule.UpdatesAreBounded | src/ClientPatches/PerformanceOptimizations/Audio/AudioUpdatePolicy.hpp:29-61 | so at most (t - t0) / interval + 1 calls have updated up to any tick t |
| AudioSchedule.SecondIsThrottled | src/ClientPatches/PerformanceOptimizations/Audio/AudioUpdatePolicy.hpp:29-61 | and no more than `MostInASecond` in any span shorter than a second |
| AudioSchedule.SixtyOrSo | src/ClientPatches/PerformanceOptimizations/Audio/AudioUpdatePolicy.hpp:29-61 | which is 61 or 62 for a clock of at least 3600 ticks a second: 61 if and only if its frequency is a multiple of sixty or one more |
| AudioSchedule.MostIsReached | src/ClientPatches/PerformanceOptimizations/Audio/AudioUpdatePolicy.hpp:29-61 | and is reached, for every clock: calls are given that update that often in less than a second |
| FontCache.ListsAreFamilies | src/ClientRuntime/EngineFont.cpp:126-129 | every name of the bold list contains Bold, and none of the regular list does |
| FontCache.SizesAreAlike | src/ClientRuntime/EngineFont.cpp:21-38 | both lists run from the largest size to the smallest, the same sizes but for the largest bold one |
| FontCache.ContainsIff | src/ClientRuntime/EngineFont.cpp:132-135 | a name contains another text if and only if it is that text with something before it and something behind |
| FontCache.FindBestLoadedFont | src/ClientRuntime/EngineFont.cpp:146-177 | the lowest usable candidate that is high enough, else the highest that improves, the first of equals; none only if none improves |
| FontCache.ReservedWithinHalfCycle | src/ClientRuntime/EngineFontCachePolicy.hpp:53-67 | a scan is granted if and only if the time since the deadline is within the first half of a 2^32 ms cycle, however often the clock wrapped |
| FontCache.ScansAreApart | src/ClientRuntime/EngineFontCachePolicy.hpp:53-67 | granted scans are the retry interval apart, for retry intervals below 2^31 and no others |
| FontCache.LoadedFontCache.TryReserveScan | src/ClientRuntime/EngineFontCachePolicy.hpp:57-67 | reserves a scan exactly then, and remembers the deadline |
| FontCache.LoadedFontCache.ChooseStorageIndex | src/ClientRuntime/EngineFontCachePolicy.hpp:44-51 | the first free slot, or the next victim's if none is free |
| FontCache.LoadedFontCache.Lookup | src/ClientRuntime/EngineFont.cpp:227-278 | finds a font if and only if the cache holds a sound one for the key, and empties the slot of an unsound one |
| FontCache.LoadedFontCache.Publish | src/ClientRuntime/EngineFont.cpp:303-325 | stores the font in the slot of its key, a free one or the victim's, keeping keys distinct |
| FontCache.LoadedFontCache.ScanTable | src/ClientRuntime/EngineFont.cpp:289-302 | what the scan returns is sound and the best of the family asked for, else the best regular font if that is allowed; nothing only if nothing improves |
| FontCache.TargetHeightIs | src/ClientRuntime/EngineFont.cpp:291 | at the greatest scale the source is as high as the target, which is higher than the source |
| FontCache.LoadedFontCache.Replace | src/ClientRuntime/EngineFont.cpp:289-325 | what the scan finds is put into the slot of the key, or else the first free one, or else the next victim's; if it finds nothing the cache stays |
| FontCache.LoadedFontCache.ResolveSharperArial | src/ClientRuntime/EngineFont.cpp:210-337 | every non-null result is at its recorded index in the current object table, a font with the methods needed, and bold if and only if the source is, unless bold is preferred; then a scan returns one that is not bold only if no bold one improves; a font held for the key is returned without a scan, and otherwise a scan is made exactly when one is due and its choice returned; of the fonts held for other keys at most one is given up, and only if no slot is free: the next victim; no two slots share a key; scans are the retry interval apart |
| CrashRing.CrashRing.Append | src/Utils/Logger/Logger/FileLogger.cpp:163-191 | the message takes the slot of the one a hundred messages ago |
| CrashRing.CrashRing.Dump | src/Utils/Logger/Logger/FileLogger.cpp:193-243 | the dump is the last min(n, 100) messages, oldest first, if and only if the 32-bit counter has not wrapped around within the last hundred |

## Left out

- The Thumb, IA64 and x64-only sections of `disasm.cpp`.
- VEX, EVEX and XOP instructions are modelled by their length only; they have no relative targets.
- Disassembler.CDetourDis.CopyFF: does not model `s_fLimitReferencesToModule`, which is off unless a caller of the
  library sets it, nor the fault when the absolute address is not readable.
- The scratch buffer used when no destination is given, and the call without a source.
- Arm64Relocator.CDetourDis.CopyLdrLiteral: promises no more than the length for words with top byte DC (hexadecimal),
  which have the pattern of a literal load but are no instruction.
- Simulation.TrampolineIsOriginal: calls are known by their target and the memory they run in, since the return
  address they push differs.
- MovedCode.MoveInstructions: does not model prologues with an instruction that is not `Movable` or not read right,
  or with a byte that is no instruction; what the copier does to one such instruction is stated by
  `MovedCode.MoveInstruction` and module Meaning, what becomes of the layout behind it is not.
- The protections of the trampoline regions themselves: whether making them writable succeeds is a
  parameter, and VirtualProtect is assumed to succeed when protections are put back, as the source does.
- DetourUpdateThread, which does not check the owner, and suspending and resuming threads; the installer's
  own call of it, for the current thread, has no effect.
- Transactions.Detours.Commit: does not model a queue with a hook removed twice, after which the free chain has no
  end; `Transactions.DetachTwice` carries such a queue out.
- Trampolines.TrampolineHeap.Free: a slot that is free already is not covered; `Trampolines.TrampolineHeap.Return` is
  the same for any slot.
- Process memory is a field of type `seq`, reassigned by each store, rather than an array; aliasing of
  pointer cells and code is kept, faults on unmapped memory are not modelled.
- Whether an address is in an import table (`detour_is_imported`) is a parameter.
- The class chain walked by `IsFont`, the method table checked by `HasRequiredFontMethods` and the heights of
  fonts are given facts about objects; heights are real numbers, and those that are not finite are absent.
- FontCache.LoadedFontCache.TryReserveScan: the reservation is one atomic step; weak memory orders and
  concurrent callers of the cache are not modelled.
- AudioSchedule.UpdateSchedule.ShouldRunUpdate: ticks whose grid cell ends beyond the 64-bit range are excluded:
  there the source's addition overflows, which is undefined.
- The choice of a crash ring by channel name and the text of log lines; a message is its formatted text.
- Debug-only join summaries, profiling, drawing, scaling and slider code, the DInput proxy, PE parsing, the
  executable guard and configuration files: foreign calls, files, or easy arithmetic.
- Voice modes and budgets, and small clamps: true, but easy.
