# Verification model of the Monster Hunter Online launcher's low-level parts

This project models, in Dafny, the parts of the launcher and its injected DLL that carry real proof obligations,
and proves what they promise.

1. **Code patching and run-time trampolines.** A small 32-bit x86 machine (eight registers, EFLAGS, EIP, a flat
   4 GiB byte memory; `Words`, `Machine`, `Decoder`, `Execution`) runs the bytes that the installers write
   (`Patch`, `Hooks`). C callbacks, observers and real methods are native code: an oracle decides what they do, and
   only the calling convention limits it. The main result is a simulation over whole runs (`Simulation`,
   `Installation`): a program patched by the batch installer does what the original does, up to the status flags,
   the dead stack and the DLL's own memory, however many hooks it passes and whatever the callbacks do within cdecl.
2. **TerSafe vtable trampolines** (`ObserverCall`, `SlotCapture`, `SlotPlaces`, `VtableTrampoline`, `SlotForwarding`,
   `SlotEmitter`, `VtableInstall`, `VtableCalls`, `NestedCalls`) and the **LoadLibrary detour** (`Mobility`, `Detour`, `LoadOnce`).
   `Consistency` exhibits processes that meet the hypotheses of the theorems about trampolines.
3. **The growable buffer** (`Endian`, `ByteBuffer`, `BufferRuns`) and the **TCLS shared-memory image** written
   with it (`TclsImage`, `TclsWriter`).
4. **Walkers over foreign memory** (`Resolver`, `TreeSearch`, `SubscriberDiff`), the **lock-free dedup table**
   (`Dedup`) and the **PE dump** (`PeDump`).

Code that the repository writes as loops over mutable state is written here as classes and methods with loop
invariants, proved against specification functions; machine semantics and address arithmetic are functions.

Properties that turned out not to hold, each with the exact condition or a witness:

- A jmp hook whose `VirtualAlloc` fails still overwrites its site: after a whole table has been installed the site of a
  failed entry jumps to address 0, every other entry's to its trampoline (`Installation.SiteJumpsToGrant`).
- The hook on the virtual call site replays a `call`, which shows its callee a return address inside the trampoline;
  a replayed call is invisible exactly when it runs where it stood (`Relocation.ReplayedCallShows`).
- `safe_to_hotpatch` looks at bytes, not instructions, and misses indirect calls, the loop and jecxz instructions and
  an instruction that is cut after the fifth byte: of `55 8B EC 83 EC` the copy runs on into its own jump back, inside
  whose displacement control goes on (`Detour.CheckMissesCutInstruction`).
  Of whole instructions that pass, one does the same at both addresses, from every state, exactly when it is no indirect
  call and a loop or jecxz lands inside the moved code (`Detour.CheckedCodeRelocates`, with runs that differ in
  `Detour.CheckMissesIndirectCall` and `Detour.CheckMissesJecxz`).
- A patch body that itself loads TerSafe through the hooks re-enters `call_once` and hangs; it does so exactly when its
  loads contain TerSafe (`LoadOnce.RunLoads`).
- The vtable trampolines keep what they need after the call in one static cell per slot. In a nested run of the machine
  every call leaves for its own caller exactly when no slot is last re-entered, while active, from another place; every
  ESP difference is what the call's own method popped exactly when none is last re-entered at another ESP; and every
  object logged is the call's own exactly when none is last re-entered for another (`NestedCalls.RightExactlyWhen`, with
  a run in which all three go wrong, `Consistency.ReentryExists`).
- The real method is entered with EAX holding the last copied argument word, not the caller's EAX
  (`SlotForwarding.ReachMethod`).
- `path_b_resolve` does not look at bytes 3 to 6 of the thunk. The jump it decodes is executed exactly when the last of
  the instructions there falls on in the state it meets (`Resolver.ThunkReachesStub`; if others may leave as well, all
  are executed in turn exactly when each falls on, `Resolver.ThunkInTurnExactlyWhen`), and an instruction does so from
  every state exactly when it cannot leave or goes a distance of 0 (`Resolver.NeverStraysExactlyWhen`). With a `ret` at
  byte 3 there is always a state that goes neither to the jump nor to the stub (`Resolver.ReturnGoesAstray`).
- The tree search ends exactly when its descent meets no node twice (`TreeSearch.EndsExactlyWhenNoRevisit`).
- The dedup table's comment promises "one extra dump" at worst. A bound below 512 on the dumps of one pair holds
  exactly when there is only one thread (`Dedup.BoundNeedsOneThread`), and no bound holds for every number of threads
  (`Dedup.BoundFails`).
- The PE dump writes a section that has neither size nor place in the file over the start of the headers. For every
  memory a header byte survives exactly when the section last written over it, if any, writes that very byte
  (`PeDump.HeaderByteKeptExactlyWhen`); `PeDump.SignatureLost` is a module with a `.bss` section whose dump does not
  start with "M".
- `write_wchar` swaps and calls `write_u16`, which swaps again, so UTF-16 text is low byte first in both byte orders
  (`ByteBuffer.WcharLowFirst`).

## Model

| member | source | states |
|---|---|---|
| Machine.ExecAgree | ag_mho_dll/hook_table.h:59-75 | two states that differ only in hidden bytes and flags stay so under any instruction that reads nothing hidden, also at another address when it does not mention EIP |
| Machine.ImageRoundTrip | ag_mho_dll/hook_table.h:11-15 | the 32 bytes pushad leaves in HookContext order are what popad takes the registers from |
| Machine.ExecFrame | ag_mho_dll/hook_table.h:47-59 | an instruction changes no memory byte outside the span it is said to write |
| Decoder.DecodeLocal | ag_mho_dll/hook_table.h:32-40 | decoding looks at no byte beyond the instruction's own length |
| Execution.RunStraight | ag_mho_dll/hook_table.h:47-59 | code in memory that its own stores spare executes as its disassembly, instruction by instruction |
| Execution.ReplayAgree | ag_mho_dll/hook_table.h:56-75 | position-independent code replayed elsewhere does to registers, flags and memory what it did in place |
| Trampoline.FrameMemoryHolds | ag_mho_dll/hook_table.h:11-21 | what the callback finds: return address, pointer to the context, the eight registers, and from hook_stack on the original stack |
| Trampoline.CallExec | ag_mho_dll/hook_table.h:66-72 | the emitted prologue enters the callback with exactly that frame and writes nothing else |
| Trampoline.RestoreExec | ag_mho_dll/hook_table.h:73-74 | add esp,4 and popad leave the saved registers and the hook-time stack pointer |
| Trampoline.JumpLands | ag_mho_dll/patch.h:49-58 | an E9 whose displacement is taken modulo 2^32 lands on its target, for all site and target addresses |
| Transparency.ReachCallback | ag_mho_dll/hook_table.h:61-75 | from the patched site the callback is entered in six steps with the registers of the hook point saved |
| Transparency.ContextKept | ag_mho_dll/hook_table.h:19-23 | a callback that keeps to cdecl and its argument leaves the saved registers as they were |
| Transparency.ResumeFromContext | ag_mho_dll/hook_table.h:73-77 | the stolen bytes start with the registers the callback left in its HookContext, whatever it wrote there, and the original ESP |
| Transparency.EnterStolen | ag_mho_dll/hook_table.h:61-80 | site, callback and restore together reach the stolen bytes with all eight registers as at the site; only dead stack and the DLL's memory differ |
| Simulation.PassHook | ag_mho_dll/hook_table.h:61-114 | passing one hooked site equals running the stolen instructions there, including a final ret |
| Simulation.PlainStep | ag_mho_dll/hook_table.h:90-114 | a step away from the hooks is the same in the patched and the unpatched process and keeps all hooks in place |
| Simulation.HookedProgramMeansTheSame | ag_mho_dll/hook_table.h:61-114 | meaning preservation: every well-behaved run of the original, of any length and through any hooks, is matched by the hooked process |
| Consistency.HookedProcessExists | ag_mho_dll/hook_table.h:61-114 | the hypotheses of the simulation theorem can all be met: a process with a hook, a callback that returns and a run that passes the hook |
| Words.LoadStored | ag_mho_dll/patch.h:30-36 | what was written is what is then read there |
| Words.LoadPast | ag_mho_dll/patch.h:30-36 | what is read elsewhere is what was there before |
| Patch.Process.PatchBranch | ag_mho_dll/patch.h:39-58 | opcode and displacement written one after the other amount to one five-byte branch from the site to the target |
| Patch.Process.HookCall | ag_mho_dll/patch.h:38-47 | a call hook is such a branch with opcode E8 at base + offset |
| Patch.Process.PatchJmp | ag_mho_dll/patch.h:49-58 | a jmp hook is such a branch with opcode E9 |
| Patch.Process.PatchNop | ag_mho_dll/patch.h:60-68 | exactly count bytes of 90, filled in a loop |
| Patch.Process.GenerateTrampoline | ag_mho_dll/hook_table.h:61-80 | the bytes emitted through the moving index are the 21 + n bytes of the trampoline; a failed allocation writes nothing and returns 0 |
| Patch.Process.PadSite | ag_mho_dll/hook_table.h:106-112 | the byte-wise padding is the NOP tail of the site, and none for a count of five or less |
| Patch.Process.InstallCallHooks | ag_mho_dll/hook_table.h:84-88 | the loop is the fold of all entries, which `Installation.CallsInPlace` characterises |
| Patch.Process.InstallJmpHooks | ag_mho_dll/hook_table.h:90-114 | the loop is the fold of all entries, trampoline then jump then padding, whatever VirtualAlloc answers; `Installation.EntryInPlace` says what that is in the entries' own fields |
| Patch.Process.InstallNopPatches | ag_mho_dll/hook_table.h:116-120 | the loop is the fold of all entries, which `Installation.NopsInPlace` characterises |
| Installation.BatchInstalled | ag_mho_dll/hook_table.h:90-114 | with disjoint ranges every entry ends in place and no byte outside the ranges has changed |
| Installation.OrderIrrelevant | ag_mho_dll/hook_table.h:90-114 | two tables with the same entries in any order leave the same memory |
| Installation.EntryInPlace | ag_mho_dll/hook_table.h:90-114 | after a whole table each entry has its own jump and NOPs at base + offset, and in its own grant the call of its own callback, its own stolen bytes and the jump to base + offset + stolen_count |
| Installation.EntryReachesCallback | ag_mho_dll/hook_table.h:61-105 | after a whole table, whoever comes to an entry's site enters that entry's callback in six steps, with the saved registers as its argument and the return address in that entry's trampoline |
| Installation.EntryReturnsHome | ag_mho_dll/hook_table.h:73-80 | from the callback's return the registers are those of the context, the entry's own stolen bytes come next, and behind them control goes to the byte after the entry's site |
| Installation.InstalledProgramMeansTheSame | ag_mho_dll/hook_table.h:61-114 | all hooks of a table are transparent together: install, run, and every well-behaved run of the original is matched |
| Installation.JumpsInPlace | ag_mho_dll/hook_table.h:90-114 | after the batch every site holds the jump to what its allocation answered, whatever the allocations answered |
| Installation.SiteJumpsToGrant | ag_mho_dll/hook_table.h:64-105 | after a whole table each site jumps to whatever its allocation answered, so to 0 when it failed |
| Installation.CallsInPlace | ag_mho_dll/hook_table.h:84-88 | with disjoint sites every call hook of a table ends in place |
| Installation.CallsKeepTheRest | ag_mho_dll/hook_table.h:84-88 | no byte outside the call sites of the table changes, overlaps and wrap-around included |
| Installation.CallOrderIrrelevant | ag_mho_dll/hook_table.h:84-88 | two call tables with the same entries in any order leave the same memory |
| Installation.CallSiteRedirected | ag_mho_dll/hook_table.h:84-88 | after a whole table every site calls its replacement with the original return address and registers |
| Installation.NopsInPlace | ag_mho_dll/hook_table.h:116-120 | after a whole table a byte is 90 if it lies in any entry's range and unchanged if it lies in none, overlaps and wrap-around included |
| Installation.NopOrderIrrelevant | ag_mho_dll/hook_table.h:116-120 | two NOP tables with the same entries in any order leave the same memory |
| Installation.NopsFallThrough | ag_mho_dll/hook_table.h:116-120 | after a whole table every range is walked through, from any of its bytes, with no effect but on EIP |
| Relocation.StubPrologueRelocates | ag_mho_dll/hooks_crygame.cpp:1595-1600 | the five stolen bytes of the dispatch stubs may be replayed anywhere |
| Relocation.LogEpilogueRelocates | ag_mho_dll/hooks_mhoclient.cpp:63-68 | the stolen epilogue, which ends in ret 0Ch, may be replayed anywhere |
| Relocation.CallSiteDoesNotRelocate | ag_mho_dll/hooks_crygame.cpp:1612-1616 | the stolen bytes of the virtual call site may not |
| Relocation.ReplayedCallShows | ag_mho_dll/hooks_crygame.cpp:1612-1616 | a replayed call hands its callee the original return address if and only if it runs at the original address |
| ObserverCall.ObserverPasses | ag_mho_dll/hooks_tersafe.cpp:422-427 | registers, EFLAGS and all memory but dead stack and DLL memory come through an observer call unchanged |
| SlotCapture.CaptureExec | ag_mho_dll/hooks_tersafe.cpp:408-420 | the captures store return address, this, EDX and the eight stack words and change only the slot's cells and EAX |
| SlotForwarding.ReachMethod | ag_mho_dll/hooks_tersafe.cpp:406-431 | the real method is entered with the caller's ECX, EDX, other registers, flags, ESP and stack arguments; EAX is the eighth argument word |
| SlotForwarding.ReturnFromMethod | ag_mho_dll/hooks_tersafe.cpp:432-444 | after the method's return control goes to the address in the slot's caller cell with the method's registers and flags |
| SlotForwarding.SlotCallIsTheMethodCall | ag_mho_dll/hooks_tersafe.cpp:198-207 | for a method ending in ret K: back at the caller, ESP advanced by 4 + K, registers and flags the method's, and the inferred argument count is K / 4 |
| SlotForwarding.CountInferred | ag_mho_dll/hooks_tersafe.cpp:203-204 | for every signed ESP difference the inferred count is a quarter of it, or -1 when it is negative |
| SlotForwarding.FirstObserverEntered | ag_mho_dll/hooks_tersafe.cpp:406-427 | the first observer is entered with the slot's own number, and finds return address, this, EDX and the eight stack words in the slot's cells |
| SlotForwarding.SecondObserverEntered | ag_mho_dll/hooks_tersafe.cpp:430-441 | the second observer is entered with the same number, and finds the method's return value and ESP beside what the entry saved |
| SlotForwarding.ObserversToldTheirSlot | ag_mho_dll/hooks_tersafe.cpp:422-441 | in a call through a slot both observers are told i for main slot i and 0x100 * sub + i for sub-slot i, with the right return address and a count of K / 4 behind a method ending in ret K |
| VtableCalls.ReplacedWordCallsOriginal | ag_mho_dll/hooks_tersafe.cpp:388-549 | a virtual call through any replaced word tells the observer the number of the slot that owns the word and then enters the method that stood in the word |
| VtableCalls.WordsBelongToTheirSlots | ag_mho_dll/hooks_tersafe.cpp:446-544 | word s of the main vtable is owned by main slot s, word s of a sub-vtable by that sub-object's slot s |
| SlotPlaces.NumberDecodes | ag_mho_dll/hooks_tersafe.cpp:247-249 | the sub-observers' shift and mask give back sub-object and slot |
| Consistency.HookedSlotExists | ag_mho_dll/hooks_tersafe.cpp:388-449 | the hypotheses of the slot theorem can all be met: a slot in place, honest observers and a method ending in ret 8 |
| Consistency.SlotRunExists | ag_mho_dll/hooks_tersafe.cpp:388-449 | the hypotheses of the nested-run theorem can all be met, by a run of the machine through a slot |
| Consistency.ReentryExists | ag_mho_dll/hooks_tersafe.cpp:83-105 | a run of the machine in which a method re-enters its own slot from another place, at another ESP and for another object |
| SlotEmitter.Page.EmitSlot | ag_mho_dll/hooks_tersafe.cpp:395-444 | the bytes written through the moving pointer are the slot's program, on a page otherwise left at CC |
| SlotEmitter.Page.EmitCapture | ag_mho_dll/hooks_tersafe.cpp:408-420 | the copy loop emits 18 + 71 bytes: the saves and eight load/store pairs, the first with the short form |
| SlotEmitter.Page.EmitObserve | ag_mho_dll/hooks_tersafe.cpp:422-427 | the observer call is emitted with a displacement that is right for the pointer's own place; push imm8 and push imm32 alike |
| VtableInstall.TerSafe.InstallVtablePatches | ag_mho_dll/hooks_tersafe.cpp:330-557 | for any overlap of the three tables and any pattern of failures no word is wrapped twice, every wrapped word's saved target is the original, exactly the words that should be are replaced, and each belongs to the trampoline of its own slot |
| VtableInstall.TerSafe.HookMain | ag_mho_dll/hooks_tersafe.cpp:388-449 | every main slot whose page was granted, and no other word, holds that page |
| VtableInstall.TerSafe.HookSub | ag_mho_dll/hooks_tersafe.cpp:471-548 | a sub-vtable is replaced up to its first word outside the image, at most sixteen, skipping failed allocations |
| VtableInstall.TerSafe.HookSubs | ag_mho_dll/hooks_tersafe.cpp:454-554 | both sub-objects in turn, on the words as the previous pass left them; a missing, unreadable or locked one changes nothing |
| VtableInstall.SubTableExactlyWhen | ag_mho_dll/hooks_tersafe.cpp:458-477 | the sub-vtables are what the objects at +0Ch and +10h begin with, when object, table and unlocking are all there |
| VtableInstall.InImageIsOriginal | ag_mho_dll/hooks_tersafe.cpp:484-489 | since fresh pages lie outside the image, a word whose value lies inside it has not been replaced yet |
| VtableInstall.WrapOne | ag_mho_dll/hooks_tersafe.cpp:446-489 | replacing an original word by an unused trampoline keeps every word wrapped at most once |
| NestedCalls.EntryWritesOwnCell | ag_mho_dll/hooks_tersafe.cpp:408-431 | on the machine, entering a slot writes return address, ESP and this to that slot's cells and changes no other slot's cells or code |
| NestedCalls.ExitReadsOwnCell | ag_mho_dll/hooks_tersafe.cpp:432-444 | leaving a slot changes no slot's saved cells or code; it goes to its caller, records what its method popped and keeps its object if and only if the cells still hold what the entry saved |
| NestedCalls.CellsFollowShape | ag_mho_dll/hooks_tersafe.cpp:83-105 | over every nested run of the machine, of any depth and over any slots, the cells are those the shape of the run gives |
| NestedCalls.RightExactlyWhen | ag_mho_dll/hooks_tersafe.cpp:83-105 | in every nested run of the trampolines' code every call leaves for its own caller if and only if no slot is last re-entered, while active, from another place; and likewise for the ESP difference and the object logged |
| NestedCalls.NoReentryIsSafe | ag_mho_dll/hooks_tersafe.cpp:83-105 | in such a run slots nest in any order and depth as long as none is re-entered while active |
| NestedCalls.RightDifferenceCounts | ag_mho_dll/hooks_tersafe.cpp:203-204 | from a right difference the observer infers K / 4 arguments for a method that popped K bytes |
| NestedCalls.ReentryGoesAstray | ag_mho_dll/hooks_tersafe.cpp:83-105 | in such a run one re-entry from another place sends the outer call to the inner caller, and one at another ESP records the distance to the inner call's ESP |
| Detour.SafeToHotpatch | ag_mho_dll/hooks_tersafe.cpp:623-631 | accepts exactly when none of the five bytes is one of the listed opcodes |
| Mobility.MeansTheSameExactlyWhen | ag_mho_dll/hooks_tersafe.cpp:619-622 | for any code: an instruction does the same at both addresses, from every machine state, if and only if it is no call and, being a relative jump, lands inside the moved code |
| Detour.CheckedCodeRelocates | ag_mho_dll/hooks_tersafe.cpp:619-631 | for code that passes the check: if and only if it is no indirect call and, being a loop or jecxz, lands inside the moved code |
| Detour.CheckMissesIndirectCall | ag_mho_dll/hooks_tersafe.cpp:619-631 | five bytes that pass, and from every state the moved call leaves another word on the stack |
| Detour.CheckMissesJecxz | ag_mho_dll/hooks_tersafe.cpp:619-631 | five bytes that pass, and with ECX zero the original and the copy leave for different addresses |
| Detour.CheckMissesCutInstruction | ag_mho_dll/hooks_tersafe.cpp:619-655 | five bytes that pass and are no whole instructions: in the copy the jump back's opcode becomes an operand, and control goes on inside the jump with ESP off by 23 |
| Detour.InlinePatch | ag_mho_dll/hooks_tersafe.cpp:635-671 | when it returns a trampoline, page and target hold exactly the detour; otherwise the target is untouched; and exactly when each happens |
| Detour.DetouredCallReachesHook | ag_mho_dll/hooks_tersafe.cpp:649-668 | whoever calls the detoured function comes to the hook, and the rest of the trampoline's page is CC |
| Detour.PassInside | ag_mho_dll/hooks_tersafe.cpp:651-655 | each instruction of the five bytes is one step in the copy, the last one followed by the jump to the sixth byte; loops inside and tail jumps included |
| Detour.DetourCallsOriginal | ag_mho_dll/hooks_tersafe.cpp:633-671 | calling through the trampoline is the unpatched call: any run of the original, through the function and back into the caller, has a run of the patched process with the same registers, flags, memory and EIP |
| LoadOnce.Wrappers.LoadLibrary | ag_mho_dll/hooks_tersafe.cpp:592-617 | any wrapper call, with the loads nested in it and those the patch body makes, enters the body once if it is the first to see TerSafe, else not at all |
| LoadOnce.RunLoads | ag_mho_dll/hooks_tersafe.cpp:325-330 | over any run of nested and repeated loads the body is entered once if TerSafe is ever loaded, else never; it hangs if and only if the body loads TerSafe itself |
| LoadOnce.SeenExactlyWhen | ag_mho_dll/hooks_tersafe.cpp:582-617 | TerSafe is seen if and only if some load, at any depth of nesting, returns a real handle of it |
| Endian.SwapBytes | common/ag_buffer.h:53-64 | the two-pointer loop reverses the array, or leaves it when the orders agree |
| Endian.Swap16Reverses | common/ag_buffer.h:29-34 | the shift form reverses the two bytes, for all values |
| Endian.Swap32Reverses | common/ag_buffer.h:36-42 | the mask-and-shift form reverses the four bytes, for all values |
| Endian.Swap64Reverses | common/ag_buffer.h:44-51 | the mask-and-shift form reverses the eight bytes, for all values |
| Endian.SwapsUndoThemselves | common/ag_buffer.h:29-51 | each swap is its own inverse |
| Endian.FastSwap16 | common/ag_buffer.h:29-34 | on numbers, the 16-bit form exchanges the two bytes |
| Endian.FastSwap32 | common/ag_buffer.h:36-42 | on numbers, the bit form equals reading the reversed little-endian bytes |
| ByteBuffer.AgBuffer.Grow | common/ag_buffer.h:75-84 | capacity grows by the request and 1024, and all old contents stay |
| ByteBuffer.AgBuffer.WriteData | common/ag_buffer.h:94-106 | contents become the old ones overwritten at the cursor, extended if need be; nothing written for length 0; bytes elsewhere in the block stay |
| ByteBuffer.OverwrittenAt | common/ag_buffer.h:94-106 | every byte of what a write leaves: the new ones from the cursor on, the old ones elsewhere |
| ByteBuffer.AgBuffer.WriteU8 | common/ag_buffer.h:167-177 | one byte overwritten or appended at the cursor |
| ByteBuffer.AgBuffer.WriteU16 | common/ag_buffer.h:179-183 | the two bytes of the value in the buffer's byte order |
| ByteBuffer.AgBuffer.WriteU32 | common/ag_buffer.h:185-191 | the four bytes of the value in the buffer's byte order |
| ByteBuffer.AgBuffer.WriteRepeat | common/ag_buffer.h:88-92 | n copies of the byte |
| ByteBuffer.AgBuffer.WriteString | common/ag_buffer.h:108-113 | the bytes and one NUL |
| ByteBuffer.AgBuffer.WriteWString | common/ag_buffer.h:129-133 | the UTF-16 units, two bytes each |
| ByteBuffer.AgBuffer.WriteWchar | common/ag_buffer.h:135-143 | always low byte first, whatever the byte order |
| ByteBuffer.WcharLowFirst | common/ag_buffer.h:135-143 | because the two swaps cancel |
| ByteBuffer.WideBytesAt | common/ag_buffer.h:129-143 | unit i of a wide string takes bytes 2 i and 2 i + 1, low byte first |
| ByteBuffer.AgBuffer.ReadU8 | common/ag_buffer.h:145-153 | the byte at the cursor; 0 and no move at or past the end |
| ByteBuffer.AgBuffer.ReadU16 | common/ag_buffer.h:155-159 | the value whose encoding stands at the cursor; missing bytes read as 0 |
| ByteBuffer.AgBuffer.ReadU32 | common/ag_buffer.h:161-165 | the value whose encoding stands at the cursor; missing bytes read as 0 |
| ByteBuffer.AgBuffer.ReadString | common/ag_buffer.h:115-127 | the bytes up to the first NUL or the end, and where the cursor is left |
| ByteBuffer.AgBuffer.ReadData | common/ag_buffer.h:193-205 | all or nothing: the bytes at the cursor, which moves past them, or no change |
| ByteBuffer.AgBuffer.Seek | common/ag_buffer.h:237-243 | the cursor never passes the end by seeking |
| ByteBuffer.AgBuffer.SetLength | common/ag_buffer.h:253-258 | the end moves, the block grows when needed, no byte of the block changes |
| ByteBuffer.AgBuffer.GetData | common/ag_buffer.h:207-222 | all or nothing, and nothing past the requested count |
| ByteBuffer.SwapTwice | common/ag_buffer.h:161-191 | the DWORD swap undoes itself and reverses the bytes when the orders differ |
| ByteBuffer.BytesInOrder | common/ag_buffer.h:185-191 | a 32-bit number is written low byte first in the small order and high byte first in the big one |
| ByteBuffer.HalvesInOrder | common/ag_buffer.h:155-183 | a 16-bit number likewise, and a read takes the two bytes in the same order |
| ByteBuffer.ReadBack16 | common/ag_buffer.h:155-183 | encoding a value read from two bytes gives those bytes |
| ByteBuffer.EncodingsInjective | common/ag_buffer.h:179-191 | different values have different encodings, in either byte order |
| BufferRuns.RunAll | common/ag_buffer.h:75-262 | every sequence of integer, data, repeat, string and wide-string writes, integer, string and data reads, copies out, seeks, length and byte-order changes refines a plain byte sequence with a cursor, outputs included |
| BufferRuns.WriteSeekRead | common/ag_buffer.h:155-191 | a 16- or 32-bit value written, sought back to and read is the value, in either byte order, from any state |
| BufferRuns.FirstNul | common/ag_buffer.h:115-127 | a NUL-free string is determined by the bytes up to the first NUL |
| BufferRuns.WriteThenReadString | common/ag_buffer.h:108-127 | a NUL-free string written, sought back to and read is the string |
| TclsImage.PlanIsValid | ag_mho_exe/shared_memory.h:128-331 | no two variables share a slot, and every slot lies inside its table |
| TclsImage.Parts | ag_mho_exe/shared_memory.h:122-429 | where size word, main table, records and nested table lie in the finished image |
| TclsImage.RegionsChained | ag_mho_exe/shared_memory.h:122-429 | header, records, nested table and records each start where the one before ends, from 0 to the length of the image |
| TclsImage.Tiling | ag_mho_exe/shared_memory.h:122-429 | an offset lies in the image if and only if it lies in one of these regions; the 260-byte header, the 68-byte nested table and all records are pairwise disjoint, and each holds its bytes |
| TclsImage.FirstVariableRead | ag_mho_exe/shared_memory.h:128-241 | following slot k of a variable written before the nested table yields exactly its bytes |
| TclsImage.LastVariableRead | ag_mho_exe/shared_memory.h:300-331 | the same for the variables written after the nested records |
| TclsImage.NestedTableFound | ag_mho_exe/shared_memory.h:243-335 | slot 20 holds the place of the nested table, whose first word points at its second |
| TclsImage.NestedVariableRead | ag_mho_exe/shared_memory.h:248-351 | following a word of the nested table yields exactly that part's bytes |
| TclsImage.UnusedSlot | ag_mho_exe/shared_memory.h:345-425 | for any plan, word 0 is 64, and the slots of no variable hold 0 in both tables |
| TclsImage.FieldsRecovered | ag_mho_exe/shared_memory.h:122-429 | a reader that follows the tables gets back every field wherever it is stored, qq_uin in all four places, whatever the fields hold |
| TclsImage.ConstantsRecovered | ag_mho_exe/shared_memory.h:128-331 | the seventeen constant variables and three constant parts of variable 20, byte by byte |
| TclsImage.UnusedSlots | ag_mho_exe/shared_memory.h:333-425 | word 0 is 64; slots 8-13, 28-31, 34, 35, 38, 39, 43-59 and 61-64 and words 10-16 of the nested table lead nowhere |
| TclsImage.FollowExactlyWhen | ag_mho_exe/shared_memory.h:128-131 | what a reader does with a table word: it is the place of a length and of as many bytes, or 0 |
| TclsImage.WritingOrder | ag_mho_exe/shared_memory.h:122-331 | the records stand in the source's order without gaps, from byte 260 to the end of the image, the nested table's 68 bytes among them |
| TclsImage.WideInjective | ag_mho_exe/shared_memory.h:199-204 | equal UTF-16 records come from equal strings |
| TclsWriter.Writer.WriteRecords | ag_mho_exe/shared_memory.h:123-331 | the first pass leaves two zeroed tables and all records in place and stores every record's true position |
| TclsWriter.Writer.FillTables | ag_mho_exe/shared_memory.h:333-425 | the second pass overwrites exactly the reserved bytes: no record changes, nor the length |
| TclsWriter.Writer.Write | ag_mho_exe/shared_memory.h:122-429 | the destination holds the image; when it is too short nothing is copied and the length is returned all the same |
| Resolver.ReadExactlyWhen | ag_mho_dll/hooks_crygame.cpp:92-117 | a read succeeds if and only if it starts at or above 64 KiB, is not empty and all its bytes can be read, and then gives them |
| Resolver.ResolveAnswers | ag_mho_dll/hooks_crygame.cpp:768-813 | for every memory with a readable, well-formed chain of selector byte, table word, thunk and stub at the source's addresses, the answer is that stub and its displacement |
| Resolver.UnresolvedExactlyWhen | ag_mho_dll/hooks_crygame.cpp:768-813 | there is no answer if and only if the module is not loaded, the command lies outside 1-0x10e and 0x202-0x409, or one of these reads or byte checks fails |
| Resolver.ResolveStable | ag_mho_dll/hooks_crygame.cpp:768-813 | a change of memory that misses what the resolver looks at, of selector, table word, thunk and stub bytes 5 to 10, leaves the answer as it was, found or not |
| Resolver.ResolveAfterInstall | ag_mho_dll/hooks_crygame.cpp:797-801 | every answer is the same after any batch of jmp hooks that misses those bytes |
| Resolver.ResolveAfterCalls | ag_mho_dll/hooks_crygame.cpp:797-801 | and after any batch of call hooks that misses them |
| Resolver.ResolveAfterNops | ag_mho_dll/hooks_crygame.cpp:797-801 | and after any batch of NOP patches that misses them |
| Resolver.ResolveAfterStubHook | ag_mho_dll/hooks_crygame.cpp:1595-1600 | and after a five-byte hook on the stub the thunk leads to, whether or not the stub is accepted |
| Resolver.StubHookMissesTail | ag_mho_dll/hooks_crygame.cpp:1595-1600 | a five-byte hook on the stub itself misses its deciding bytes |
| Resolver.ThunkReachesStub | ag_mho_dll/hooks_crygame.cpp:790-796 | the machine started at the thunk comes to the jump if and only if the last of the instructions in bytes 3 to 6 falls on in the state it meets, and then reaches the reported stub |
| Resolver.ThunkInTurnExactlyWhen | ag_mho_dll/hooks_crygame.cpp:790-796 | whatever instructions bytes 3 to 6 are, the machine executes them in turn up to the jump if and only if each goes on in the state it meets, and then reaches the reported stub |
| Resolver.DocumentedThunkReachesStub | ag_mho_dll/hooks_crygame.cpp:788-796 | the thunk 8D 42 10 89 45 08 5D E9 reaches its stub from every state whose store spares it |
| Resolver.NeverStraysExactlyWhen | ag_mho_dll/hooks_crygame.cpp:790-794 | an instruction goes on to its successor from every state if and only if it cannot leave or goes a distance of 0 |
| Resolver.OffsetIsTheDisplacement | ag_mho_dll/hooks_crygame.cpp:797-811 | the reported offset is the displacement of the mov esi,[ecx+disp32] that stands at the stub's byte 5 |
| Resolver.UncheckedReturn | ag_mho_dll/hooks_crygame.cpp:790-796 | a thunk with a ret at byte 3 resolves, and from every state goes to the address on the stack |
| Resolver.ReturnGoesAstray | ag_mho_dll/hooks_crygame.cpp:790-796 | whatever else memory holds, some state then goes neither to the thunk's jump nor to the stub |
| TreeSearch.Search | ag_mho_dll/hooks_crygame.cpp:378-424 | on any memory on which the loop ends it returns what the specification says, unreadable nodes included |
| TreeSearch.DescentIsLowerBound | ag_mho_dll/hooks_crygame.cpp:384-404 | on a laid-out tree the descent ends, within its height, at the lower bound of the id |
| TreeSearch.LowerBoundDecides | ag_mho_dll/hooks_crygame.cpp:410-423 | in an ordered tree the lower bound holds the id if and only if the map does |
| TreeSearch.FindHandlerIsLookup | ag_mho_dll/hooks_crygame.cpp:378-424 | on every readable, acyclic, key-ordered tree the result is map lookup, 0 when absent |
| TreeSearch.SearchOnAnyMemory | ag_mho_dll/hooks_crygame.cpp:378-424 | on any memory on which it ends, links and keys that cannot be read included, the answer is the handler of the last node left to the left, if its key can still be read and is not above the id, else 0; 0 without a readable root |
| TreeSearch.WordReadExactlyWhen | ag_mho_dll/hooks_crygame.cpp:107-117 | a field is read if and only if its four bytes can be, and is the DWORD they make |
| TreeSearch.NonzeroIsGenuine | ag_mho_dll/hooks_crygame.cpp:378-424 | on arbitrary memory a nonzero result belongs to a node reachable from the root whose key is the packet id |
| TreeSearch.EndsExactlyWhenNoRevisit | ag_mho_dll/hooks_crygame.cpp:386-404 | on arbitrary memory the loop ends if and only if it never comes to a node a second time |
| TreeSearch.SelfLoopNeverEnds | ag_mho_dll/hooks_crygame.cpp:386-404 | a node that is its own child on the side taken is never left |
| SubscriberDiff.Walk | ag_mho_dll/hooks_crygame.cpp:874-894 | the loop yields at most sixteen nodes of any memory, and exactly those the links lead to |
| SubscriberDiff.WalkOfCircular | ag_mho_dll/hooks_crygame.cpp:883-894 | on a well-formed circular list these are the first min(16, length) nodes in order |
| SubscriberDiff.WalkFollowsLinks | ag_mho_dll/hooks_crygame.cpp:883-894 | on any memory the nodes are as the links lead, none of them the head, up to the head, an unreadable link or sixteen nodes |
| SubscriberDiff.ReplayDiff | ag_mho_dll/hooks_crygame.cpp:841-866 | replaying the events over the old set gives exactly the new set, duplicates or not |
| SubscriberDiff.DiffReports | ag_mho_dll/hooks_crygame.cpp:844-866 | the report in full: one registration for every place of the new list whose node is not in the old one, in list order, then one removal for every place of the old list whose node is not in the new one |
| SubscriberDiff.ReportedExactlyWhen | ag_mho_dll/hooks_crygame.cpp:844-866 | an event is reported if and only if it is this command's registration of a new node or its removal of a gone one |
| SubscriberDiff.QuietExactlyWhenSame | ag_mho_dll/hooks_crygame.cpp:841-866 | no event is emitted if and only if the two sets are equal |
| SubscriberDiff.SlotWritten | ag_mho_dll/hooks_crygame.cpp:827-870 | writing a command's slot keeps one slot per command and every other command's nodes |
| SubscriberDiff.DiffCache.Slot | ag_mho_dll/hooks_crygame.cpp:827-839 | the command's slot, else an empty one claimed for it, else none; and when each happens |
| SubscriberDiff.DiffCache.Update | ag_mho_dll/hooks_crygame.cpp:841-870 | events are the difference to the cached nodes, the new nodes are cached, no other command is disturbed |
| SubscriberDiff.DiffCache.WalkAndDiff | ag_mho_dll/hooks_crygame.cpp:874-912 | a dispatch walks and diffs; an unreadable head reports and changes nothing |
| SubscriberDiff.RunDispatches | ag_mho_dll/hooks_crygame.cpp:818-912 | over every run of dispatches, replaying a cached command's events from the empty set gives the nodes of its last walk |
| Dedup.Table.NoteCallerPairNew | ag_mho_dll/hooks_mho_handlers.cpp:29-45 | undisturbed, the scan and the two stores add an unseen pair while there is room and say so |
| Dedup.KeyInjective | ag_mho_dll/hooks_mho_handlers.cpp:36 | different (function, return address) pairs have different keys |
| Dedup.StepKeepsInv | ag_mho_dll/hooks_mho_handlers.cpp:35-45 | every shared access of any thread keeps the table's invariant |
| Dedup.EveryInterleaving | ag_mho_dll/hooks_mho_handlers.cpp:29-45 | in every interleaving the count stays in 0..256, every cell below it holds a claimed key, and a call is muted only after a claim for its pair that answers or will answer true, or once every cell was claimed |
| Dedup.SerialRuns | ag_mho_dll/hooks_mho_handlers.cpp:29-45 | in serial runs, over any threads, every call is answered as by a set of the first 256 pairs, and each pair is announced at most once |
| Dedup.RoundTwice | ag_mho_dll/hooks_mho_handlers.cpp:31-45 | a slow second thread overwrites one claim and then hides another, so the same pair is announced twice and forgotten |
| Dedup.BoundFails | ag_mho_dll/hooks_mho_handlers.cpp:29-34 | two threads announce one pair 512 times, and N threads announce it at least N times |
| Dedup.BoundNeedsOneThread | ag_mho_dll/hooks_mho_handlers.cpp:29-34 | any bound from 1 to 511 on the announcements of a pair holds in all runs if and only if there is at most one thread |
| PeDump.DumpPe | ag_mho_dll/dump_module.cpp:57-124 | a file is written exactly when the module was found, both signatures are right and it could be opened; it is then the headers with the sections laid over them |
| PeDump.WriteSections | ag_mho_dll/dump_module.cpp:92-120 | the loop of seeks and writes is the fold of the sections; a raw offset of 2 GiB or more does not move the file position |
| PeDump.ByteCovered | ag_mho_dll/dump_module.cpp:107-120 | a byte that sections cover is that of the last of them |
| PeDump.ByteUncovered | ag_mho_dll/dump_module.cpp:90-120 | any other byte is the header's, or zero in a gap |
| PeDump.LengthOfDump | ag_mho_dll/dump_module.cpp:90-120 | the file ends where its headers or the furthest nonempty section end |
| PeDump.SectionByteDumped | ag_mho_dll/dump_module.cpp:92-120 | the byte that the file holds where a section is last written, read off the module's own headers: the section's memory at its virtual address, or 0 for .tvm and .tls |
| PeDump.DumpableExactlyWhen | ag_mho_dll/dump_module.cpp:57-88 | a dump needs a module, MZ at its start, PE and two zeros where e_lfanew points, and a file |
| PeDump.ChunkIs | ag_mho_dll/dump_module.cpp:98-120 | a section goes to its raw offset, or, when fseek refuses the offset, behind what was written before |
| PeDump.DumpMapsBack | ag_mho_dll/dump_module.cpp:92-120 | with disjoint ranges above the headers, mapping the file per the section table gives back the memory of every section not skipped, zeros for the skipped ones, and the headers |
| PeDump.HeaderByteKeptExactlyWhen | ag_mho_dll/dump_module.cpp:90-120 | for every memory, a header byte survives if and only if the section last written over it, if any, writes that very byte: 0 when skipped, else the memory byte at the section's address |
| PeDump.UninitialisedDataOverwritesHeaders | ag_mho_dll/dump_module.cpp:98-102 | the file of a module whose last section has no raw size and no raw offset starts with that section's first byte, so with M if and only if the section does |
| PeDump.SignatureLost | ag_mho_dll/dump_module.cpp:57-120 | a memory with valid headers and a .bss section, from which a file is written that starts with 0 |

## Left out

- Win32 calls: VirtualAlloc, VirtualProtect, ReadProcessMemory, IsBadReadPtr and fopen are parameters (an address or 0, a truth value, a set of readable addresses).
- Callbacks, observers and real methods: an oracle limited by the calling convention; a callback that edits its HookContext is covered by `Transparency.ResumeFromContext`, not by the simulation.
- Instructions outside the small set the decoder knows: a run that fetches one has no step, so the theorems say nothing about it; EFLAGS are one word computed by a function of operation and operands that models the status bits.
- Code that reads its own patched bytes, uses stack below ESP, or reads status flags across a hook: excluded by the `Behaves` condition of the simulation, because the trampoline of a jmp hook does not save EFLAGS.
- Simulation.HookedProgramMeansTheSame: stolen bytes with a jump that stays inside them, or an indirect jump before their end, are excluded; no table of the repository steals such bytes.
- Patching while other threads execute the half-written bytes.
- What a process does after a failed entry's site has jumped to address 0.
- Patch.Process.Emit: the bytes of one instruction are written together, not one by one.
- VtableInstall.TerSafe.InstallVtablePatches: pointers to vtables and objects are dword-aligned, as C++ demands of them, so tables that overlap by part of a word are not modelled; a missing CreateObj export or a null object, where nothing is done, and the probe that only logs are not modelled; the bytes of the pages are in `SlotEmitter`.
- VtableCalls.ReplacedWordCallsOriginal: sizeof(SlotState) is taken as 900; that emitter, page and words meet in one memory is a hypothesis (`Installed`), as the installer model keeps words and saved methods apart from the bytes.
- VtableInstall.TerSafe.HookMain: the emitter and the table store are separate members; their order within one slot does not matter to either.
- The snapshots and hex dumps of the observers: logging.
- NestedCalls.RightExactlyWhen: calls are properly nested and single-threaded; between them the game's own code may do anything that leaves the trampolines and the cells in question alone; overlapping calls of two threads through one slot are not modelled.
- Detour.CheckedCodeRelocates: speaks of the instructions the decoder knows; relative jumps and indirect calls with prefixes (such as 66 0F 8x and 2E FF D0), far indirect calls (FF 18) and xbegin, which also pass the check, are outside that set.
- Detour.DetourCallsOriginal: runs that come back to the function's first five bytes, where the hook's jump now stands, are excluded.
- LoadOnce.Wrappers.LoadLibrary: the four wrappers differ in their parameters only and are one method; other threads waiting in call_once are not modelled, nor what a process does after hanging, nor that install_tersafe_hooks currently returns early.
- ByteBuffer.AgBuffer.Grow: realloc succeeds and sizes do not wrap; after a failed realloc the source writes past its block.
- ByteBuffer.AgBuffer.WriteWchar: wchar_t has two bytes.
- ByteBuffer.AgBuffer.ReadU16: the byte reads are taken from left to right, which the C++ expression leaves open.
- get_all_data, slice and the second constructor of the buffer: no new state to reason about.
- TclsWriter.Writer.Write: the straight-line statements of the source are lists of slot and body processed by one loop, and the stored positions are maps by slot; the conversion to UTF-16 happens before; images of 4 GiB and more are not readable through 32-bit offsets and excluded from the reading lemmas.
- Resolver.ResolveStable: logging callers and the caching of the module base are not modelled.
- TreeSearch.Search: a descent that never ends has no result to state; when that happens is `TreeSearch.EndsExactlyWhenNoRevisit`.
- SubscriberDiff.RunDispatches: command 0, which the cache uses for empty slots and no caller passes, is excluded.
- Dedup.EveryInterleaving: 64-bit stores are atomic and memory is sequentially consistent.
- Dedup.BoundNeedsOneThread: for two or more threads, bounds of 512 and more that are not below the number of threads are left undecided.
- Resolver.ThunkReachesStub: bytes 3 to 6 are taken as whole instructions the decoder knows, of which only the last may leave; `Resolver.ThunkInTurnExactlyWhen` drops the second condition.
- PeDump.DumpPe: waiting for the module, reading faults and failures of fwrite and calloc are not modelled.
- The launcher flow, INI parsing, string formatting, the logging callbacks, the protocol cipher hooks, the constant tables and the TenProxy and BugTrace stubs: input and output, finite data or code that is not visible.
