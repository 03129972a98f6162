# API hooking and printer forwarding: a verified model

The repository forwards printing calls of a program to another process. It rests on two pieces of
code, and this project models both and proves properties of them.

**The hooking engine** (MinHook 1.3.1, `3rdparty/minhook-1.3.1/src`). It redirects functions of the
running process: it copies the first instructions of a function into a trampoline, patches a jump
to the replacement over them, and can undo this. Three parts share one flat memory of bytes:

- `TrampolineSpec`, `Trampoline`, `TemplateRuns`, `TrampolineSim`, `TrampolineCode`, `TrampolineAccept`,
  `TrampolineLimits`: the relocation of instructions (`trampoline.c`), a small machine-code translator. `Cpu` says
  what a disassembler reports and what one instruction does to the instruction pointer, after the Intel 64 and IA-32
  Software Developer's Manual, Volume 2.
- `Region`, `SlotHeap`, `Buffer`: the allocator of trampoline slots within reach of a 32-bit jump (`buffer.c`),
  with its free lists kept in the memory itself.
- `HookSpec`, `HookRuns`, `HookOrigin`, `Hook`, `HookMap`, `HookOutcomes`, `HookTheorems`, `HookExample`: the hook
  table and the API (`hook.c`). `ThreadSpec`, `FrozenThreads` and `ThreadTheorems` cover suspended threads, `SpinLock`
  and `ConcurrentHooks` calls from several threads.

**The argument structs** (`gen-cpp/userdefined_types.cpp`), read and written over Thrift's binary protocol:
`ThriftSpec`, `ThriftStructs`, `ThriftLaws`, `ThriftValues` (values of every wire type, encoded independently of the
readers), `ThriftCut` (what exceptions leave behind) and `Thrift`. The four
generated classes differ in their fields only; a schema stands for each, and one class carries the generated read
loop and writer.

`Bytes` holds words and memory, `ProcessState` (in `Process.dfy`) the memory and threads of the hooked process.

## How to read it

Code that changes things step by step is a class or a method with loops here too: `TrampolineBuilder`,
`SlotAllocator`, `HookEngine`, `Protocol` and `ArgStruct` follow the C functions branch by branch. Each such
method is proved against functions and predicates on values (`Relocate`, `HeapIn`, `ApiStep`, `ReadStruct`), and the
lemmas about those say what they mean. `dafny verify dfyconfig.toml` checks everything.

The operating system is a parameter: `Os` (VirtualQuery, VirtualAlloc), `Env` (heap, VirtualProtect) and
`Threading` answer arbitrarily. `Threading` has the snapshot, the OpenThread and SuspendThread of Freeze, the
context calls for each hook passed, and the OpenThread and ResumeThread of Unfreeze, each with an answer of
its own for every thread. Both the x64 and the x86 constants are kept, as the parameter `Arch`.

The main results:

- a trampoline behaves as the code it was copied from (`TrampolineSim.RunSimulated`), with the exact conditions
  on the original code under which internal jumps survive the move, and the distance within which operands do
  (`TrampolineCode.MovableFromCode`); after any run of API calls this is a statement about the program's own
  code (`HookOrigin.RunSeesOriginal`, `HookTheorems.MovedThreadContinues`);
- exactly which functions can be hooked, as a condition on their original code with opcodes and sizes written out
  (`TrampolineAccept.HookableExactly`), and that MH_CreateHook refuses no other as unsupported;
- after any run of API calls the code bytes are the original ones overlaid with the patches of exactly the
  enabled hooks, every backup is original, and the live slots are exactly the trampolines of the table
  (`HookRuns.RunKeepsInv`, `HookTheorems.RunCodeIsOverlay`); a successful MH_Uninitialize restores everything;
- an enabled hook leads to the user's detour and nowhere else (`HookTheorems.EnabledHookReachesDetour`);
- the allocator never hands out a live slot, keeps every slot in reach, and its searches are exact
  (`NoBlockMeans`, `ChosenMeans`);
- the hook table is a finite map (`HookMap.StepRefinesMap`), and concurrent calls are serial calls
  (`SpinLock.EveryScheduleIsSerial`, `ConcurrentHooks.ConcurrentCallsKeepInv`, and for bulk switches that are
  interrupted between two windows `ConcurrentHooks.InterleavedSwitchesKeepInv`), with nobody shut out for good
  (`SpinLock.CallGetsThrough`);
- a thread that a call reaches is never left inside a window or a freed slot, with the exact exceptions
  (`ThreadTheorems.EnableCallClear`, `QueuedClear`, `UninitializeCallOutOfSlots`, `RefusedCallStands`), and the
  suspend counts come out even under an exact condition (`FrozenThreads.CountsKeptExactly`);
- the structs come back from the wire as they were written, through foreign and reordered fields
  with values of any wire type (`ThriftValues.ForeignRoundTrip`), and truncated input is refused
  (`ThriftCut.TruncatedRead`).

## Assumptions

- The disassembler is any function that reports lengths from 1 to 15, depends on the bytes of the instruction only,
  and knows the instructions the engine itself writes (`DecoderOk`; `TrampolineLimits.DecodersExist` shows one, and
  `HookExample` uses it for a complete state with an enabled hook).
- Hooked functions keep ten bytes apart, and the bytes around them that hooking reads are code (`Admissible`);
  `HookTheorems.OverlappingHooks` says what happens otherwise. The statements about threads need 25 bytes, those
  that compare trampolines with the program itself 45, as far as the builder reads around a target. Nothing else
  writes to those bytes, and whether an address is executable does not change.
- The system never hands out a page that holds code or belongs to a registered block (`OsOk`).
- Suspended threads stand at instruction boundaries. On x64 no thread stands between the two instructions of a
  relocated call or conditional jump.
- A thread snapshot lists a thread once.

## Where the code differs from what it says or may be expected to do

- `buffer.c:163` speaks of 512 MB; the constant at `buffer.c:36` is 1 GB, and the model uses the constant. The comments
  at `buffer.c:187` and `buffer.c:203` have above and below exchanged.
- A backward internal jump over a direct call or a branch to the outside is accepted and then lands off its
  boundary; the check at `trampoline.c:253` covers forward jumps only (`InternalJumpExactly`,
  `BackwardJumpMisplaced`).
- A RIP-relative operand out of reach of the slot is truncated without notice (`OperandKept`, `OperandLost`);
  up to 2^31 - 2^30 - 64 bytes away it is always in reach (`OperandSurvives`; the tight bound is
  `OperandSafeExactly`).
- `hook.c:319` and `hook.c:338` ignore whether suspending and resuming succeed, and `hook.c:316` and
  `hook.c:335` open each thread separately. The suspend counts are what they were only if the answers pair up
  (`CountsKeptExactly`); a thread that cannot be opened the second time stays suspended (`LeftSuspended`).
- `hook.c:661` freezes with ACTION_ENABLE also when one hook is disabled, so that MH_DisableHook for one hook moves
  no thread (`DisableMovesNobody`). MH_RemoveHook and MH_Uninitialize free the slots of disabled hooks too, and
  threads inside those are not moved out (`NoThreadInSlot`, `NoThreadInSlots`).
- Functions closer than ten bytes are accepted, and disabling one of them can damage the patch of the other
  (`NeighboursCollide`, nine bytes apart; `OverlappingHooks`).
- Threads are moved before it is known whether the windows can be written (`hook.c:405`, `hook.c:614`). When a call
  that disables ends in ERROR_MEMORY_PROTECT, some of them resume in the middle of a jump that is still there
  (`RefusedCallStands`, `StrandedThread`).
- A map with 2^31 or more entries is written with a wrapped size and cannot be read back (`RoundTripExactly`,
  `OversizedLost`).
- The readers ignore the element types that a map on the wire declares (`OtherElementTypesMisread`).
- A write that fails does not take back its increment of the recursion depth (`TProtocol.h:665-673`): after 64
  failed writes a protocol object refuses all others (`WrittenExactly`).

## Model

| member | source | states |
|---|---|---|
| TrampolineBuilder.IsCodePadding | 3rdparty/minhook-1.3.1/src/trampoline.c:53-66 | true if and only if the first byte is 00, 90 or CC and all others are equal to it |
| TrampolineBuilder.Trampoline.Record | 3rdparty/minhook-1.3.1/src/trampoline.c:259-264 | appends one boundary to both tables, never past the eighth entry |
| TrampolineBuilder.TranslateJmp | 3rdparty/minhook-1.3.1/src/trampoline.c:173-203 | a direct jump is copied if it is internal and becomes the long form otherwise; the farthest internal destination and the end of the function are tracked |
| TrampolineBuilder.TranslateJcc | 3rdparty/minhook-1.3.1/src/trampoline.c:204-243 | a conditional jump is copied if internal, becomes the long form otherwise; LOOP and JCXZ to the outside are refused |
| TrampolineBuilder.TranslateOne | 3rdparty/minhook-1.3.1/src/trampoline.c:139-250 | each instruction form gets the code that the relocation calls for, or is refused |
| TrampolineBuilder.NextBoundary | 3rdparty/minhook-1.3.1/src/trampoline.c:112-260 | one round of the loop extends the relocation by exactly one copy or ends it, with the three reasons for giving up |
| TrampolineBuilder.CopyInstructions | 3rdparty/minhook-1.3.1/src/trampoline.c:101-271 | the loop ends for any decoder that reports lengths from 1 to 15 and yields the relocation, or nothing when there is none (TrampolineAccept.AcceptedExactly says when); it writes nothing outside the first TRAMPOLINE_MAX_SIZE bytes of the slot |
| TrampolineBuilder.FindPatchRoom | 3rdparty/minhook-1.3.1/src/trampoline.c:273-292 | room on the target, else room for the short jump and executable padding above it, else refusal; above is chosen only where there is no room on the target |
| TrampolineBuilder.WriteRelay | 3rdparty/minhook-1.3.1/src/trampoline.c:294-300 | the relay behind the copies jumps to the detour and disturbs no copy |
| TrampolineBuilder.CreateTrampolineFunction | 3rdparty/minhook-1.3.1/src/trampoline.c:69-303 | succeeds exactly when the target can be hooked (TrampolineAccept.HookableExactly says which can); then slot, tables, patch position and relay are those of the layout; only the slot is written |
| TrampolineSpec.RelocateGivesLayout | 3rdparty/minhook-1.3.1/src/trampoline.c:112-271 | whatever the loop yields is a gapless chain of faithful copies that keeps the length of every copy under an internal jump and ends the function |
| TrampolineSpec.BoundariesFit | 3rdparty/minhook-1.3.1/src/trampoline.c:256-269 | at most 6 boundaries (so the 8-entry tables and the 3-bit count hold them), positions below 256, all code inside the slot |
| TrampolineSpec.Increasing | 3rdparty/minhook-1.3.1/src/trampoline.c:262-269 | both boundary tables strictly increase together |
| TrampolineSpec.PatchIsSafe | 3rdparty/minhook-1.3.1/src/trampoline.c:273-292 | every byte the patch will cover belongs to a copied instruction or holds 00, 90 or CC in a run of equal bytes inside the patch, in all three placements |
| TrampolineAccept.AcceptedExactly | 3rdparty/minhook-1.3.1/src/trampoline.c:101-271 | which code is relocated, as an if and only if on the original instructions with opcodes and sizes written out: all of them decode, no LOOP or JCXZ leaves the first five bytes, none that an internal jump passes over changes its size, and the sizes sum to at most 50, or 32 on x86 |
| TrampolineAccept.LoopIsScan | 3rdparty/minhook-1.3.1/src/trampoline.c:112-260 | from any point of the loop, the relocation succeeds exactly when the scan of the original code from there accepts it, and copies the instructions that the scan visits |
| TrampolineAccept.PatchMeans | 3rdparty/minhook-1.3.1/src/trampoline.c:273-292 | where the patch finds room: five bytes replaced or filled with 00, 90 or CC throughout, or two such bytes and five of executable filler above |
| TrampolineAccept.HookableExactly | 3rdparty/minhook-1.3.1/src/trampoline.c:69-303 | exactly which functions can be hooked, on the original code: those that are relocated and have that room |
| TrampolineAccept.SameHookable | 3rdparty/minhook-1.3.1/src/trampoline.c:101-292 | whether a function can be hooked depends on five bytes above it and forty bytes from it on, and not on the slot |
| TemplateRuns.JmpRelRuns | 3rdparty/minhook-1.3.1/src/trampoline.h:42-47 | E9 goes to the end of the instruction plus the sign-extended operand |
| TemplateRuns.JmpCodeRuns | 3rdparty/minhook-1.3.1/src/trampoline.c:77-94 | the engine's jump (FF25 with a literal, or E9 modulo 2^32) arrives at its destination and does nothing else |
| TemplateRuns.CallCodeRuns | 3rdparty/minhook-1.3.1/src/trampoline.c:72-90 | the engine's call arrives at its destination with a return address that continues behind the literal |
| TemplateRuns.JccCodeRuns | 3rdparty/minhook-1.3.1/src/trampoline.c:81-98 | the engine's conditional jump goes to the destination exactly when the original condition holds, in one instruction or two |
| TrampolineSim.StepSimulated | 3rdparty/minhook-1.3.1/src/trampoline.c:112-271 | when its internal jump or RIP-relative operand can be moved, one original instruction at a copied boundary is matched by the code of its copy: same effect, corresponding destination, corresponding return address |
| TrampolineSim.ClosingRuns | 3rdparty/minhook-1.3.1/src/trampoline.c:125-138 | the closing jump leaves the slot at exactly the next original instruction |
| TrampolineSim.RunSimulated | 3rdparty/minhook-1.3.1/src/trampoline.c:69-303 | under the same conditions a whole run from any copied boundary and the run of its copy leave at the same address with the same state, and a pushed return address continues in the slot where the original would continue |
| TrampolineSim.OperandKept | 3rdparty/minhook-1.3.1/src/trampoline.c:151-154 | the rewritten displacement addresses the same operand if and only if the operand is within signed 32-bit reach of the new place |
| TrampolineSim.RipCopied | 3rdparty/minhook-1.3.1/src/trampoline.c:139-159 | a RIP-relative copy differs from the original in its four displacement bytes only, and decodes alike |
| TrampolineCode.InternalDestCopied | 3rdparty/minhook-1.3.1/src/trampoline.c:252-254 | a jump to an instruction boundary inside the first five bytes goes to a copied boundary |
| TrampolineCode.BackwardDistance | 3rdparty/minhook-1.3.1/src/trampoline.c:183-189 | the copies between a destination and a later jump keep their total length if and only if none of the original instructions between is a direct call or a branch to the outside |
| TrampolineCode.JumpStaysExactly | 3rdparty/minhook-1.3.1/src/trampoline.c:183-189 | a copied internal jump lands on the copy of its destination if and only if the code has an instruction there and, for a backward jump, no rewritten instruction in between; the condition reads the original code only |
| TrampolineCode.InternalJumpExactly | 3rdparty/minhook-1.3.1/src/trampoline.c:183-189 | an internal jump to an instruction of the original code lands on its copy if and only if it goes forward or passes no instruction that is rewritten on the way back |
| TrampolineCode.RelocatedLength | 3rdparty/minhook-1.3.1/src/trampoline.c:112-271 | the length of the relocated code is a function of the original code alone |
| TrampolineCode.OperandSurvives | 3rdparty/minhook-1.3.1/src/trampoline.c:151-154 | a RIP-relative operand at most 2^31 - 2^30 - 64 bytes away keeps its address in every slot that AllocateBuffer can return |
| TrampolineCode.OperandSafeExactly | 3rdparty/minhook-1.3.1/src/trampoline.c:151-154 | the tight bound: an operand keeps its address in every slot in reach if and only if it does in the lowest and in the highest of them |
| TrampolineCode.MovableFromCode | 3rdparty/minhook-1.3.1/src/trampoline.c:112-271 | a condition on the original code alone, on its internal jumps and its operands, under which all copies behave as their originals |
| TrampolineLimits.DecodersExist | 3rdparty/minhook-1.3.1/src/trampoline.c:120-122 | the assumptions made on the disassembler can be met |
| TrampolineLimits.BackwardJumpMisplaced | 3rdparty/minhook-1.3.1/src/trampoline.c:183-189 | concrete code that is accepted although its backward internal jump no longer lands on a boundary, in a slot the allocator can return |
| TrampolineLimits.OperandLost | 3rdparty/minhook-1.3.1/src/trampoline.c:151-154 | concrete code, a call through a pointer almost 2 GB away, that is relocated with success into a slot in reach, 256 MB off, and then uses another pointer |
| Region.FindPrevFreeRegion | 3rdparty/minhook-1.3.1/src/buffer.c:89-115 | the greatest free granularity-aligned address below the origin's granule and not below the limit; 0 only if there is none; the search ends and does not wrap |
| Region.FindNextFreeRegion | 3rdparty/minhook-1.3.1/src/buffer.c:120-147 | the least free granularity-aligned address above the origin's granule and within the limit; 0 only if there is none |
| Buffer.AllocBelow | 3rdparty/minhook-1.3.1/src/buffer.c:188-201 | the nearest free address below the origin that the system grants; every nearer free one was refused |
| Buffer.AllocAbove | 3rdparty/minhook-1.3.1/src/buffer.c:204-218 | the nearest free address above the origin that the system grants; every nearer free one was refused |
| SlotHeap.UsedCountIsLive | 3rdparty/minhook-1.3.1/src/buffer.c:253-283 | usedCount of a block is the number of its slots outside the free list, which are the slots handed out |
| SlotHeap.DownFromOk | 3rdparty/minhook-1.3.1/src/buffer.c:228-236 | the list built for a new block holds each slot exactly once and none outside the block |
| SlotHeap.BuiltAllFree | 3rdparty/minhook-1.3.1/src/buffer.c:227-240 | every slot of a new block is in its free list |
| SlotHeap.SlotsOfBlock | 3rdparty/minhook-1.3.1/src/buffer.c:227-240 | a block has the slots at multiples of 64 bytes (32 on x86) behind its header, and no other |
| SlotHeap.SlotTaken | 3rdparty/minhook-1.3.1/src/buffer.c:253-256 | unlinking the first free slot keeps all lists intact |
| SlotHeap.SlotReturned | 3rdparty/minhook-1.3.1/src/buffer.c:280-283 | putting a slot back keeps all lists intact |
| SlotHeap.LaterUnlinked | 3rdparty/minhook-1.3.1/src/buffer.c:286-291 | unlinking a block behind another keeps the remaining list intact |
| Buffer.SlotAllocator.constructor | 3rdparty/minhook-1.3.1/src/buffer.c:61-71 | the allocator starts with no block |
| Buffer.SlotAllocator.FindRegistered | 3rdparty/minhook-1.3.1/src/buffer.c:173-184 | a registered block in range with an unused slot, or none exactly when there is none |
| Buffer.SlotAllocator.RegisterBlock | 3rdparty/minhook-1.3.1/src/buffer.c:225-240 | a new page becomes the first block, all its slots free, all other blocks as before |
| Buffer.SlotAllocator.GetMemoryBlock | 3rdparty/minhook-1.3.1/src/buffer.c:151-243 | a block in reach with an unused slot: a registered one if there is one, else a new one at the nearest place; NULL when none is registered and the system grants none in reach |
| Buffer.ReachMeans | 3rdparty/minhook-1.3.1/src/buffer.c:160-168 | in reach means at most 1 GB from the origin to either end of the block on x64, and anywhere on x86 |
| Buffer.SlotAllocator.NoBlockMeans | 3rdparty/minhook-1.3.1/src/buffer.c:151-243 | what NULL means on x64, on the origin and the application range alone: every free aligned page within 1 GB below or above is refused by the system, and every registered block there is full |
| Buffer.SlotAllocator.ChosenMeans | 3rdparty/minhook-1.3.1/src/buffer.c:173-218 | what a new block means on x64: all registered ones in reach are full, and it is the nearest page below that is granted, or the nearest above if there is none below |
| Buffer.SlotAllocator.AllocateBuffer | 3rdparty/minhook-1.3.1/src/buffer.c:246-262 | hands out a slot that was not live, in reach of the origin, outside all code, from a new block only if no registered one will do; changes no code and no live slot; NULL only if there is no room in reach |
| Buffer.SlotAllocator.FindBlock | 3rdparty/minhook-1.3.1/src/buffer.c:267-275 | finds the block at an address and its predecessor in the list |
| Buffer.SlotAllocator.FreeBuffer | 3rdparty/minhook-1.3.1/src/buffer.c:265-302 | exactly that slot stops being live; no code and no other live slot changes; a block that becomes unused leaves the list; an address of no block is ignored |
| Buffer.SlotAllocator.BlockKept | 3rdparty/minhook-1.3.1/src/buffer.c:283-302 | a page is kept only while one of its slots is in use |
| Buffer.SlotAllocator.UninitializeBuffer | 3rdparty/minhook-1.3.1/src/buffer.c:74-85 | no block and no live slot is left |
| Buffer.SlotAllocator.SlotNotCode | 3rdparty/minhook-1.3.1/src/buffer.c:246-262 | a live slot shares no byte with the program's code |
| Hook.HookEngine.FindHookEntry | 3rdparty/minhook-1.3.1/src/hook.c:102-112 | the position of the first entry for the target, or the size of the table |
| Hook.HookEngine.NewHookEntry | 3rdparty/minhook-1.3.1/src/hook.c:115-137 | makes room for one entry at capacity 32, doubling a full table; a failed allocation loses nothing |
| Hook.HookEngine.DelHookEntry | 3rdparty/minhook-1.3.1/src/hook.c:140-157 | the last entry takes the place of the deleted one; the table is halved exactly when half suffices, is at least 32 and the heap agrees |
| HookOutcomes.CapacityMeans | 3rdparty/minhook-1.3.1/src/hook.c:115-157 | the capacities of the table that can occur are 32, 64, 128 and so on |
| HookOutcomes.RemoveCapacity | 3rdparty/minhook-1.3.1/src/hook.c:140-157 | a removal halves the capacity at most, to no less than 32 and no less than the hooks left |
| HookMap.LookupAgrees | 3rdparty/minhook-1.3.1/src/hook.c:102-112 | FindHookEntry finds a target exactly when the map has it, with the same flags |
| HookMap.AddedView | 3rdparty/minhook-1.3.1/src/hook.c:115-137 | appending an entry adds one key |
| HookMap.DeletedView | 3rdparty/minhook-1.3.1/src/hook.c:140-157 | the swap-with-last deletion removes exactly one key |
| HookMap.StepRefinesMap | 3rdparty/minhook-1.3.1/src/hook.c:458-777 | every API call is the corresponding operation on a finite map from targets to flags; failures change nothing but what a failed bulk switch had already switched |
| Hook.HookEngine.FindOldIP | 3rdparty/minhook-1.3.1/src/hook.c:160-180 | the address in the target that corresponds to an address in the trampoline, the relay or the jump above |
| Hook.HookEngine.FindNewIP | 3rdparty/minhook-1.3.1/src/hook.c:183-193 | the address in the trampoline that corresponds to a copied boundary of the target |
| ThreadSpec.NewIpExact | 3rdparty/minhook-1.3.1/src/hook.c:183-193 | FindNewIP answers for the copied boundaries and for nothing else, with the copy of the same boundary |
| ThreadSpec.OldIpExact | 3rdparty/minhook-1.3.1/src/hook.c:160-180 | FindOldIP answers for the trampoline's boundaries, the relay and the jump above, and for nothing else |
| ThreadSpec.TablesIncrease | 3rdparty/minhook-1.3.1/src/trampoline.c:259-269 | the tables of an entry start at 0 and increase in lockstep |
| ThreadSpec.TablesInverse | 3rdparty/minhook-1.3.1/src/hook.c:160-193 | moving a thread from a copied boundary to the trampoline and back, or the other way round, gives the address it had |
| ThreadSpec.MovedOnce | 3rdparty/minhook-1.3.1/src/hook.c:223-256 | with disjoint hooks a thread is moved by at most one hook, to the address that hook's tables give |
| ThreadSpec.NoThreadInWindow | 3rdparty/minhook-1.3.1/src/hook.c:196-257 | with threads at instruction boundaries and disjoint hooks, no address to which a thread is moved lies in a window about to be written |
| ThreadSpec.NoThreadInSlot | 3rdparty/minhook-1.3.1/src/hook.c:611-628 | a thread in the slot about to be freed is moved out exactly when the hook is enabled and the thread stands at a recorded boundary or at the relay |
| ThreadSpec.NoThreadInSlots | 3rdparty/minhook-1.3.1/src/hook.c:492-499 | in MH_Uninitialize a thread in the slot of any hook is moved out exactly when that hook is enabled and the thread stands at a recorded boundary or at the relay |
| ThreadSpec.ThreadsInRestoredWindow | 3rdparty/minhook-1.3.1/src/hook.c:196-257 | while disabling, a thread in a window about to be restored is put at the target, and one that ends in such a window stands at an original boundary |
| ThreadSpec.StandsExactly | 3rdparty/minhook-1.3.1/src/hook.c:196-257 | if a patch stays although its hook was to be disabled, a thread stands at an instruction of it unless it was in the trampoline at a boundary, not the first, whose original is under the patch |
| Hook.HookEngine.ProcessThreadIPs | 3rdparty/minhook-1.3.1/src/hook.c:196-257 | the thread's instruction pointer becomes what the hooks in question make of it, one after the other, if its context can be read and written |
| FrozenThreads.EnumerateThreads | 3rdparty/minhook-1.3.1/src/hook.c:260-301 | the other threads of the process in snapshot order, as many as the list has memory for |
| FrozenThreads.FoundOthers | 3rdparty/minhook-1.3.1/src/hook.c:260-301 | all other threads if the list can grow, a prefix of them in any case, none twice |
| FrozenThreads.FoundMeans | 3rdparty/minhook-1.3.1/src/hook.c:268-273 | in terms of the snapshot: only threads of this process other than the caller, with a record long enough to say so, are found, and with enough memory all of them |
| FrozenThreads.FoundCount | 3rdparty/minhook-1.3.1/src/hook.c:274-292 | how many are found: none without memory for 128, else as many as 128 doubled for every allocation granted |
| FrozenThreads.FreezeThenUnfreeze | 3rdparty/minhook-1.3.1/src/hook.c:304-345 | for any answers of OpenThread, SuspendThread, GetThreadContext, SetThreadContext and ResumeThread, each call with its own: how often every thread found is suspended and where it stands after Freeze and Unfreeze; no other thread is touched |
| FrozenThreads.HandledMeans | 3rdparty/minhook-1.3.1/src/hook.c:304-345 | what an operation does to one thread, in the answers of the system: suspended and resumed as these succeed, its instruction pointer kept unless its context can be read and written, nothing if it is not listed |
| FrozenThreads.CountsKeptExactly | 3rdparty/minhook-1.3.1/src/hook.c:316-338 | all suspend counts are what they were if and only if, for every listed thread, suspending and resuming both happen, or neither does, or only resuming and the thread was not suspended |
| FrozenThreads.CountsKept | 3rdparty/minhook-1.3.1/src/hook.c:304-345 | if opening answers alike both times and suspending and resuming succeed, no suspend count changes |
| FrozenThreads.LeftSuspended | 3rdparty/minhook-1.3.1/src/hook.c:335-338 | a concrete system in which a thread stays suspended because it cannot be opened the second time |
| HookTheorems.ReachedMoves | 3rdparty/minhook-1.3.1/src/hook.c:304-325 | a thread that Freeze reaches ends where the tables of the hooks put it, whatever happens to the other threads |
| Hook.HookEngine.Freeze | 3rdparty/minhook-1.3.1/src/hook.c:304-325 | exactly the threads that are found and can be opened are suspended, if that succeeds, and moved as far as their contexts can be read and written |
| Hook.HookEngine.Unfreeze | 3rdparty/minhook-1.3.1/src/hook.c:328-345 | exactly the listed threads that can be opened again and resumed are suspended once less |
| HookTheorems.FrozenClear | 3rdparty/minhook-1.3.1/src/hook.c:304-325 | after the Freeze of an enabling operation no thread that was reached (listed, opened, context read and written) is inside a patch window about to be written |
| HookTheorems.FrozenOutOfSlot | 3rdparty/minhook-1.3.1/src/hook.c:611-628 | after the Freeze of MH_RemoveHook for an enabled hook no thread that was reached is inside the slot about to be freed |
| HookTheorems.FrozenOutOfSlots | 3rdparty/minhook-1.3.1/src/hook.c:492-499 | after the Freeze of MH_Uninitialize a reached thread has left the slot of a hook exactly when the hook was enabled and the thread stood at a recorded boundary or at the relay |
| HookTheorems.FrozenAtBoundary | 3rdparty/minhook-1.3.1/src/hook.c:397-426 | after the Freeze of a disabling operation a reached thread inside a window about to be restored stands at the target, and at a boundary wherever it is in a window |
| ThreadTheorems.CallClear | 3rdparty/minhook-1.3.1/src/hook.c:735-777 | after a call that froze the threads, in particular MH_ApplyQueued, no reached thread is inside a window of a hook to be enabled |
| ThreadTheorems.EnableCallClear | 3rdparty/minhook-1.3.1/src/hook.c:639-676 | the same for MH_EnableHook, one hook or all, from its contract |
| ThreadTheorems.RemoveCallOutOfSlot | 3rdparty/minhook-1.3.1/src/hook.c:611-628 | after the threads have been handled by MH_RemoveHook, a reached thread has left the slot about to be freed exactly when the hook was enabled and the thread stood at a recorded boundary or at the relay |
| ThreadTheorems.UninitializeCallOutOfSlots | 3rdparty/minhook-1.3.1/src/hook.c:492-499 | the same for every slot that MH_Uninitialize frees |
| ThreadTheorems.RefusedCallStands | 3rdparty/minhook-1.3.1/src/hook.c:408-419 | after a disabling call that ends in ERROR_MEMORY_PROTECT: exactly which reached threads resume at an instruction of a patch that stays, and which in the middle of it |
| ThreadTheorems.QueuedMove | 3rdparty/minhook-1.3.1/src/hook.c:735-777 | where MH_ApplyQueued puts a reached thread, on the two flags of the hook: to the copies if the hook is queued to be enabled, to the originals if it is queued to be disabled, nowhere else otherwise |
| ThreadTheorems.QueuedClear | 3rdparty/minhook-1.3.1/src/hook.c:735-777 | after MH_ApplyQueued no reached thread is in the window of a hook that was disabled and queued to be enabled |
| ThreadTheorems.QueuedStands | 3rdparty/minhook-1.3.1/src/hook.c:735-777 | after MH_ApplyQueued, for a hook that was enabled and queued to be disabled: a thread that was in the window is at the target, and exactly which threads stand at an instruction if the patch stays |
| ThreadTheorems.EnableCallMove | 3rdparty/minhook-1.3.1/src/hook.c:639-676 | where MH_EnableHook and MH_DisableHook put a reached thread, one hook or all: to the copies when enabling, to the originals when all are disabled, nowhere when one is |
| ThreadTheorems.RemoveCallMove | 3rdparty/minhook-1.3.1/src/hook.c:611-628 | where MH_RemoveHook puts a reached thread: to the originals if the hook is enabled, nowhere if it is disabled |
| ThreadTheorems.UninitializeCallMove | 3rdparty/minhook-1.3.1/src/hook.c:492-499 | the same for every hook at MH_Uninitialize |
| ThreadTheorems.FarStays | 3rdparty/minhook-1.3.1/src/hook.c:196-257 | a thread that stands near none of the hooks of a call is not moved |
| HookExample.StrandedThread | 3rdparty/minhook-1.3.1/src/hook.c:408-419 | a concrete hook and thread: MH_Uninitialize fails with ERROR_MEMORY_PROTECT and leaves the thread on the second byte of the jump |
| Hook.HookEngine.EnableHookLL | 3rdparty/minhook-1.3.1/src/hook.c:348-394 | the window holds the patch or the backup and nothing else changes, or nothing changes when the window cannot be made writable; flags follow |
| HookRuns.SwitchKeepsCode | 3rdparty/minhook-1.3.1/src/hook.c:348-394 | after a switch the code is again the original code with the patches of exactly the enabled hooks |
| HookRuns.BulkKeepsInv | 3rdparty/minhook-1.3.1/src/hook.c:397-426 | every prefix of a bulk switch keeps the invariant |
| Hook.HookEngine.SwitchFrozen | 3rdparty/minhook-1.3.1/src/hook.c:408-416 | the inner loop switches from the shared index on and stops at the first window that cannot be written |
| Hook.HookEngine.SwitchWithFreeze | 3rdparty/minhook-1.3.1/src/hook.c:404-421 | the inner loop between Freeze and Unfreeze, with all threads found handled as both say, on every outcome |
| Hook.HookEngine.SwitchAll | 3rdparty/minhook-1.3.1/src/hook.c:397-426 | succeeds exactly when every window it needs is writable, and then every hook is as wanted; otherwise exactly the hooks before the first refused one are switched; the threads found are handled by one Freeze and Unfreeze if there is something to switch, and left alone otherwise |
| HookOutcomes.BulkMeans | 3rdparty/minhook-1.3.1/src/hook.c:397-426 | enabling or disabling all hooks, and applying the queue, succeeds exactly when every window that has to be written can be; a hook gets its state exactly when that holds of those up to and including it |
| Hook.HookEngine.SwitchOne | 3rdparty/minhook-1.3.1/src/hook.c:661-669 | one hook is switched between Freeze and Unfreeze of all threads found, or no byte and no flag changes |
| Hook.HookEngine.constructor | 3rdparty/minhook-1.3.1/src/hook.c:86-98 | before any call: not initialised, no hooks, lock free |
| Hook.HookEngine.MH_Initialize | 3rdparty/minhook-1.3.1/src/hook.c:458-479 | fails when already initialised or without a heap; the lock is released |
| Hook.HookEngine.MH_Uninitialize | 3rdparty/minhook-1.3.1/src/hook.c:482-515 | succeeds exactly when all enabled hooks can be disabled; then every code byte is the original one and no slot is live |
| Hook.HookEngine.FillSlot | 3rdparty/minhook-1.3.1/src/hook.c:542-548 | the trampoline is built in the slot and nothing but the slot changes |
| Hook.HookEngine.TakeSlot | 3rdparty/minhook-1.3.1/src/hook.c:538-540 | a slot in reach that no hook uses, outside all code, or NULL with the allocator as before |
| Hook.HookEngine.GiveUp | 3rdparty/minhook-1.3.1/src/hook.c:547-555 | on failure the slot goes back and the allocator is as before the call |
| Hook.HookEngine.MakeHook | 3rdparty/minhook-1.3.1/src/hook.c:538-589 | either a disabled hook with its trampoline, tables, relay and backup, or no hook and no slot; which of the three outcomes is fixed by the allocator, by the code at the target and by the heap |
| Hook.HookEngine.MH_CreateHook | 3rdparty/minhook-1.3.1/src/hook.c:518-594 | takes the create step of the state machine, returns the trampoline on success and releases the lock; ERROR_UNSUPPORTED_FUNCTION only for code that cannot be hooked, OK only for code that can, out of memory only without a block in reach or, in a full table, without heap |
| HookOutcomes.CreateOutcome | 3rdparty/minhook-1.3.1/src/hook.c:518-594 | the order of the checks of MH_CreateHook, each status with its exact condition on the state, and what the table and its capacity are afterwards |
| Hook.HookEngine.ReleaseEntry | 3rdparty/minhook-1.3.1/src/hook.c:627-628 | the slot is returned and the entry dropped; code and all other slots stay |
| Hook.HookEngine.RemoveAt | 3rdparty/minhook-1.3.1/src/hook.c:611-630 | disables the hook if enabled, then lets go of slot and entry; keeps both when the window cannot be written |
| Hook.HookEngine.MH_RemoveHook | 3rdparty/minhook-1.3.1/src/hook.c:597-636 | takes the remove step; the status is fixed by the table and by whether the window can be written; threads are frozen exactly if the hook was enabled |
| Hook.HookEngine.EnableHook | 3rdparty/minhook-1.3.1/src/hook.c:639-676 | takes the enable step for one hook or all; threads are frozen exactly if there is something to switch; disabling one hook moves no thread |
| HookOutcomes.SingleMeans | 3rdparty/minhook-1.3.1/src/hook.c:639-676 | the status of MH_EnableHook and MH_DisableHook for one hook, in terms of its flags and of whether its window can be written |
| Hook.DisableMovesNobody | 3rdparty/minhook-1.3.1/src/hook.c:661 | freezing with ACTION_ENABLE for a hook that is enabled moves no thread |
| Hook.HookEngine.QueueHook | 3rdparty/minhook-1.3.1/src/hook.c:691-720 | sets the queue flag of one hook or of all, and nothing else |
| Hook.HookEngine.MH_ApplyQueued | 3rdparty/minhook-1.3.1/src/hook.c:735-777 | the bulk switch towards the queued states, with the threads frozen exactly if some hook needs it |
| HookRuns.CreateKeepsInv | 3rdparty/minhook-1.3.1/src/hook.c:518-594 | a new hook's backup is original code, and its slot belongs to no other hook |
| HookRuns.RemoveKeepsInv | 3rdparty/minhook-1.3.1/src/hook.c:597-636 | removing a hook restores its code, frees its slot and keeps all others |
| HookRuns.StepKeepsInv | 3rdparty/minhook-1.3.1/src/hook.c:458-777 | every API call keeps the invariant |
| HookRuns.RunKeepsInv | 3rdparty/minhook-1.3.1/src/hook.c:458-777 | after any run of API calls: code is the original overlaid with the patches of the enabled hooks, backups are original bytes, live slots are exactly the trampolines of the table |
| HookOrigin.StepKeepsSeen | 3rdparty/minhook-1.3.1/src/hook.c:518-594 | no call makes a trampoline one of changed code: what the builder read is the program's own code under the patch, and as far as it reads if new hooks keep 45 bytes from others |
| HookOrigin.RunSeesOriginal | 3rdparty/minhook-1.3.1/src/hook.c:458-777 | the same after any run of API calls |
| HookRuns.UninitializeRestores | 3rdparty/minhook-1.3.1/src/hook.c:482-515 | a successful MH_Uninitialize restores every code byte and leaves no slot in use |
| HookTheorems.CodeIsOverlay | 3rdparty/minhook-1.3.1/src/hook.c:348-394 | each code byte is that of the original memory with the enabled patches written over it, whatever the order of the calls |
| HookTheorems.RunCodeIsOverlay | 3rdparty/minhook-1.3.1/src/hook.c:348-394 | the same after any run of API calls |
| HookTheorems.DisabledHookIsOriginal | 3rdparty/minhook-1.3.1/src/hook.c:377-383 | the window of a disabled hook holds the original bytes |
| HookTheorems.OverlappingHooks | 3rdparty/minhook-1.3.1/src/hook.c:348-394 | disabling one hook leaves the other's patch whole in every program if and only if their windows do not overlap; if a patch begins under the other it is lost unless the program has a long jump there |
| HookExample.NeighboursCollide | 3rdparty/minhook-1.3.1/src/hook.c:518-594 | concrete calls, all successful: two functions nine bytes apart are hooked and enabled, one is disabled, and the other, still enabled, has lost its jump |
| HookTheorems.PatchCoversCopiedCode | 3rdparty/minhook-1.3.1/src/trampoline.c:273-292 | after any run of API calls, every byte in the window of any hook belongs to an instruction that its trampoline replaces, or is 00, 90 or CC in the program itself |
| HookTheorems.TrampolineOfProgram | 3rdparty/minhook-1.3.1/src/trampoline.c:69-303 | after a run in which hooked functions keep 45 bytes apart, every trampoline is a complete relocation of the program's own code, whatever was hooked when it was built |
| HookTheorems.LongJumpLands | 3rdparty/minhook-1.3.1/src/hook.c:364-368 | the 32-bit operand of the patch recovers pDetour exactly |
| HookTheorems.EnabledHookReachesDetour | 3rdparty/minhook-1.3.1/src/hook.c:364-376 | execution at an enabled target reaches the user's detour in two jumps on x64 and one on x86, one more when the patch lies above, and nothing else happens on the way |
| HookTheorems.MovedThreadContinues | 3rdparty/minhook-1.3.1/src/hook.c:183-193 | after a run in which hooked functions keep 45 bytes apart, a thread moved into the trampoline, or a caller of the pointer that MH_CreateHook returned, goes on as in the unhooked program; the conditions are on the program's own code |
| HookExample.HookedStateExists | 3rdparty/minhook-1.3.1/src/hook.c:348-394 | the invariant has a state with an enabled hook, on x86 and on x64 |
| Hook.HookEngine.EnterSpinLock | 3rdparty/minhook-1.3.1/src/hook.c:429-448 | takes the free lock |
| Hook.HookEngine.LeaveSpinLock | 3rdparty/minhook-1.3.1/src/hook.c:451-455 | frees the lock |
| SpinLock.AtMostOneInside | 3rdparty/minhook-1.3.1/src/hook.c:429-455 | no schedule lets two threads be between EnterSpinLock and LeaveSpinLock |
| SpinLock.EveryScheduleIsSerial | 3rdparty/minhook-1.3.1/src/hook.c:429-455 | after any schedule the shared state is that of the serial run in acquisition order, with each thread's calls in program order and with the results of that run |
| SpinLock.FinishedRunIsSerial | 3rdparty/minhook-1.3.1/src/hook.c:429-455 | when all threads are through, each has made its calls once and got the answers of the serial run |
| SpinLock.HolderLeaves | 3rdparty/minhook-1.3.1/src/hook.c:451-455 | the thread inside leaves after the steps that its body still has to take, and nobody else moves |
| SpinLock.CallGetsThrough | 3rdparty/minhook-1.3.1/src/hook.c:429-455 | from every state that a schedule leads to, some schedule gives a waiting thread its next answer, if bodies end: the lock is never lost and nobody is shut out for good |
| ConcurrentHooks.ConcurrentCallsKeepInv | 3rdparty/minhook-1.3.1/src/hook.c:458-777 | calls from any number of threads under any schedule keep the invariant of the engine whenever the lock is free, if each body alone takes the step of the state machine |
| ConcurrentHooks.BodiesMeetAssumption | 3rdparty/minhook-1.3.1/src/hook.c:397-777 | bodies that write the windows of a bulk switch one by one, with any choice of outcomes for the other calls, meet the assumption on bodies, and each ends after at most two steps more than there are hooks |
| ConcurrentHooks.InterleavedSwitchesKeepInv | 3rdparty/minhook-1.3.1/src/hook.c:397-777 | with those bodies nothing is assumed: under any schedule and any choice of outcomes the invariant holds whenever the lock is free |
| ConcurrentHooks.StepStaysWithin | 3rdparty/minhook-1.3.1/src/hook.c:518-594 | the table names only functions that the program hooks |
| ThriftSpec.IntRoundTrip | 3rdparty/thrift-0.9.2/lib/cpp/src/thrift/protocol/TBinaryProtocol.tcc:145-164 | a big-endian two's complement integer is read back |
| ThriftSpec.StringRoundTrip | 3rdparty/thrift-0.9.2/lib/cpp/src/thrift/protocol/TBinaryProtocol.tcc:178-189 | a binary string, zeros included, is read back |
| ThriftSpec.LessTotal | gen-cpp/userdefined_types.cpp:350 | the order in which map keys are written is total |
| ThriftSpec.MapRoundTrip | gen-cpp/userdefined_types.cpp:347-356 | a map of up to 2^31 - 1 entries is read back whole |
| ThriftSpec.MapBounded | 3rdparty/thrift-0.9.2/lib/cpp/src/thrift/protocol/TBinaryProtocol.tcc:270-289 | no map read from the wire has more entries than its signed 32-bit size can say |
| ThriftStructs.SkipLocal | 3rdparty/thrift-0.9.2/lib/cpp/src/thrift/protocol/TProtocol.h:186-284 | skip() depends only on the bytes it consumes |
| ThriftStructs.FieldRead | gen-cpp/userdefined_types.cpp:202-302 | one round of the read loop: a taken field is assigned, any other is passed over |
| ThriftStructs.StreamRead | gen-cpp/userdefined_types.cpp:190-307 | reading a stream of well-formed fields assigns the taken ones in order and consumes exactly the stream |
| ThriftLaws.AssignedAt | gen-cpp/userdefined_types.cpp:202-302 | a field of the object holds what the stream says about it, or what it held before |
| ThriftLaws.FieldTolerance | gen-cpp/userdefined_types.cpp:202-302 | adding or dropping fields that are not taken, and permuting the others, does not change what is read, if every field is passed over to its last byte (ThriftValues.ForeignIsGood says that values of every type are) |
| ThriftLaws.EntriesSkipped | 3rdparty/thrift-0.9.2/lib/cpp/src/thrift/protocol/TProtocol.h:242-255 | skip() goes over the entries of a string-to-integer map exactly as the reader does |
| ThriftLaws.WellFormedIsGood | gen-cpp/userdefined_types.cpp:274-292 | every well-formed field can be read, provided a map under a known identifier declares the expected element types or no entry |
| ThriftLaws.TypesDoNotDecide | gen-cpp/userdefined_types.cpp:279-290 | no condition on element types and size decides the other maps: two well-formed ones with the same types and size, of which one is read and the other is not |
| ThriftLaws.OtherElementTypesMisread | gen-cpp/userdefined_types.cpp:279-290 | a well-formed map of other element types under a known identifier is misread, because the declared types are not looked at |
| ThriftLaws.RoundTrip | gen-cpp/userdefined_types.cpp:190-363 | what write() produced is read into any prior object as an equal object with every field set, consuming exactly those bytes |
| ThriftLaws.TolerantRoundTrip | gen-cpp/userdefined_types.cpp:690-851 | the same from a stream with foreign fields added and the fields in any order |
| ThriftValues.ValueSkipped | 3rdparty/thrift-0.9.2/lib/cpp/src/thrift/protocol/TProtocol.h:186-284 | skip() goes over exactly the encoding of any value of any wire type, containers and structs nested at will; the encoder is written independently of it |
| ThriftValues.ForeignIsGood | gen-cpp/userdefined_types.cpp:202-302 | a field whose number or type the struct does not have, with any value of any wire type, is passed over to its last byte |
| ThriftValues.ForeignSkipped | gen-cpp/userdefined_types.cpp:202-302 | the read loop goes on behind such a field with the object as it was |
| ThriftValues.ForeignRoundTrip | gen-cpp/userdefined_types.cpp:190-363 | an object comes back as written when any such fields are added anywhere and its own come in any order |
| ThriftValues.StructOnWire | gen-cpp/userdefined_types.cpp:309-363 | what write() sends, as wire values: each field with its type, number and value in order, then a zero byte |
| ThriftValues.StructTypes | gen-cpp/userdefined_types.cpp:40-82 | the wire types of the fields of the four structs, as numbers |
| ThriftValues.DefaultPrinterBytes | gen-cpp/userdefined_types.cpp:92-118 | a written ArgGetDefaultPrinterW byte for byte |
| ThriftValues.KnownRead | 3rdparty/thrift-0.9.2/lib/cpp/src/thrift/protocol/TBinaryProtocol.tcc:338-452 | a bool is true for any byte but zero; numbers and strings of a known field are read as encoded |
| ThriftValues.MapRead | gen-cpp/userdefined_types.cpp:274-292 | a map of any entries in any order and announced with any element types is read to its last byte |
| ThriftValues.GatheredMeans | gen-cpp/userdefined_types.cpp:274-292 | the map that results has every key sent, with the value that came last |
| ThriftValues.SizesRefused | 3rdparty/thrift-0.9.2/lib/cpp/src/thrift/protocol/TBinaryProtocol.tcc:406-452 | a negative size is its own exception for strings and all containers, read or skipped; a string that is cut short is the end-of-file exception |
| ThriftValues.LessMeans | gen-cpp/userdefined_types.cpp:350 | the order of keys is that of std::string: the first differing byte decides, a prefix comes first |
| ThriftValues.KeysAscend | gen-cpp/userdefined_types.cpp:347-356 | map keys are written in that order |
| ThriftLaws.RoundTripExactly | gen-cpp/userdefined_types.cpp:347-356 | the round trip works if and only if every map has fewer than 2^31 entries |
| ThriftLaws.OversizedLost | gen-cpp/userdefined_types.cpp:347-356 | for every size from 2^31 to 2^32 an object with a map of that many entries, which is written without complaint and not read back |
| ThriftCut.ReadToEnd | gen-cpp/userdefined_types.cpp:190-307 | a read that is not interrupted leaves the object that the struct reader gives |
| ThriftCut.TruncatedRead | gen-cpp/userdefined_types.cpp:190-307 | input that breaks off anywhere in what was written ends in the end-of-file exception; exactly the fields that arrived whole are assigned |
| ThriftCut.SentWhole | gen-cpp/userdefined_types.cpp:309-363 | if no value is refused, what a write sends is the whole struct |
| ThriftCut.FailedWriteUnread | gen-cpp/userdefined_types.cpp:309-363 | what a failed write has sent is never read as a whole struct |
| ThriftCut.WritableMeans | 3rdparty/thrift-0.9.2/lib/cpp/src/thrift/protocol/TBinaryProtocol.tcc:178-194 | a typed object can be written if and only if no string and no key is longer than 2^31 - 1 bytes |
| ThriftCut.WrittenExactly | 3rdparty/thrift-0.9.2/lib/cpp/src/thrift/protocol/TProtocol.h:665-673 | since a failed write leaves the depth counter one higher, an object is written if and only if it is writable and fewer than 64 before it were not |
| Thrift.Protocol.ReadI | 3rdparty/thrift-0.9.2/lib/cpp/src/thrift/protocol/TBinaryProtocol.tcc:358-389 | an integer of 2, 4 or 8 bytes, or the end-of-file exception |
| Thrift.Protocol.ReadStr | 3rdparty/thrift-0.9.2/lib/cpp/src/thrift/protocol/TBinaryProtocol.tcc:406-452 | a string, or the exception for a negative size or missing bytes |
| Thrift.Protocol.ReadFieldBegin | 3rdparty/thrift-0.9.2/lib/cpp/src/thrift/protocol/TBinaryProtocol.tcc:248-263 | the type and the identifier of the next field |
| Thrift.Protocol.ReadSize | 3rdparty/thrift-0.9.2/lib/cpp/src/thrift/protocol/TBinaryProtocol.tcc:270-335 | element types and size of a container; a negative size is an exception |
| Thrift.Protocol.SkipValue | 3rdparty/thrift-0.9.2/lib/cpp/src/thrift/protocol/TProtocol.h:186-284 | consumes exactly one value of any type, nested ones included, and counts its bytes; unknown types have none |
| Thrift.Protocol.SkipStruct | 3rdparty/thrift-0.9.2/lib/cpp/src/thrift/protocol/TProtocol.h:224-241 | consumes the fields of a nested struct up to its stop byte |
| Thrift.Protocol.SkipEntries | 3rdparty/thrift-0.9.2/lib/cpp/src/thrift/protocol/TProtocol.h:242-255 | consumes the keys and values of a map in turn |
| Thrift.Protocol.WriteStr | 3rdparty/thrift-0.9.2/lib/cpp/src/thrift/protocol/TBinaryProtocol.tcc:178-194 | size and bytes, or the size exception with nothing written |
| Thrift.Protocol.WriteMapBegin | 3rdparty/thrift-0.9.2/lib/cpp/src/thrift/protocol/TBinaryProtocol.tcc:88-97 | element types and the size as its cast to 32 bits leaves it |
| Thrift.Protocol.IncrementRecursionDepth | 3rdparty/thrift-0.9.2/lib/cpp/src/thrift/protocol/TProtocol.h:665-669 | the 32-bit counter goes up, also when that is beyond the limit of 64 and an exception follows |
| Thrift.Protocol.DecrementRecursionDepth | 3rdparty/thrift-0.9.2/lib/cpp/src/thrift/protocol/TProtocol.h:671-673 | undoes one increment |
| Thrift.ArgStruct.ArgGetDefaultPrinterW | gen-cpp/userdefined_types.h:45-46 | the fields of this struct, zero or empty and none set |
| Thrift.ArgStruct.ArgEnumPrintersW | gen-cpp/userdefined_types.h:106-107 | the fields of this struct, zero or empty and none set |
| Thrift.ArgStruct.ArgDocumentPropertiesW | gen-cpp/userdefined_types.h:196-197 | the fields of this struct, zero or empty and none set |
| Thrift.ArgStruct.ArgGetPrinterW | gen-cpp/userdefined_types.h:281-282 | the fields of this struct, zero or empty and none set |
| Thrift.ArgStruct.ReadDict | gen-cpp/userdefined_types.cpp:274-292 | the field is cleared and filled entry by entry, later keys overwriting earlier ones |
| Thrift.ArgStruct.ReadField | gen-cpp/userdefined_types.cpp:210-295 | one case of the switch: the field gets the value and is marked as set |
| Thrift.ArgStruct.Read | gen-cpp/userdefined_types.cpp:190-307 | read() is the struct reader on the bytes of the protocol, ends on every input and returns the number of bytes consumed modulo 2^32; however it ends, the fields read so far are assigned and no other is touched, apart from the value of the one being read |
| Thrift.ArgStruct.WriteDict | gen-cpp/userdefined_types.cpp:347-356 | the entries in key order up to the first key that is too long; fails exactly when there is one |
| Thrift.ArgStruct.WriteField | gen-cpp/userdefined_types.cpp:314-345 | the value in the encoding of its kind, or as much of it as comes before a string that is too long |
| Thrift.ArgStruct.Write | gen-cpp/userdefined_types.cpp:309-363 | write() sends all fields in order and the stop byte and returns their number modulo 2^32; it fails exactly when the depth counter is at 64 or a string or key is longer than 2^31 - 1 bytes, and then what was sent and the counter are stated too |

## Left out

- The hde32 and hde64 disassemblers: any decoder with the stated properties takes their place.
- Page protection values, instruction cache flushes, memory barriers and the debug fills of slots: no functional content.
- Releasing pages (VirtualFree) and the private heap (HeapFree, HeapDestroy): a released block only leaves the list.
- Overlapping hooks, and other code that writes to hooked pages: excluded by the assumptions above.
- Return addresses that already lie on stacks: the engine does not track them.
- MH_CreateHookApi: a lookup of the target before MH_CreateHook.
- MH_EnableHook, MH_DisableHook, MH_QueueEnableHook and MH_QueueDisableHook: each is EnableHook or QueueHook with a constant flag.
- The 3-bit and 1-bit fields of a hook entry and the UINT8 positions: numbers and booleans here; `TrampolineSpec.BoundariesFit` shows that the numbers fit.
- The unsigned subtractions in the search limits: integers here; the limits are those of address spaces at least one page in size.
- Hook.HookEngine.EnterSpinLock: requires the lock to be free, because the object is entered by one thread at a time; waiting and competing are the subject of SpinLock, with API bodies as sequences of atomic steps and without the pauses between attempts.
- ConcurrentHooks.ConcurrentCallsKeepInv: takes as a hypothesis that the body of a call, alone, takes the step of the state machine. That is what the contracts of the HookEngine methods state; the bodies in `Bodies` are cut at the windows of bulk switches only.
- Buffer.SlotAllocator.FreeBuffer: requires a live slot or an address outside all blocks; returning a slot twice is a caller's error that the code does not notice.
- Hook.HookEngine.MH_CreateHook: requires the new hook to keep clear of the others (the table itself refuses equal targets only; `HookExample.NeighboursCollide` shows what goes wrong, `HookTheorems.OverlappingHooks` when) and an answer of the system that is coherent.
- Hook.HookEngine.FillEntry: the backup keeps the 5 or 7 bytes that were saved; the unused rest of its 8 bytes is not represented.
- Thrift.ArgStruct.Read: after an exception the value of the field that was being read is left open, because a string then depends on the transport; the limits on string and container sizes are off, as in the default construction of the protocol.
- FrozenThreads.FreezeThenUnfreeze: the other threads stand still between Freeze and Unfreeze, a thread that could not be suspended included.
- Thrift messages, transports and the services built on them, and the 34 method argument structs of gen-cpp/SelfService.cpp: the same generated pattern.
- The double type is eight bytes here; its value never matters to the four structs.
- extension, apifwrd, thriftlink, sample and the OpenSSL headers: connection set-up, DLL loading, and wrappers over libraries whose sources are not here.
