# A verified model of the RISC-V architecture code

This project models the parts of the RISC-V port whose correctness is not visible from any one
function, and proves what they are for. `dafny verify dfyconfig.toml` checks all of it.

| files | what they model |
|---|---|
| Div64 | division of 64-bit numbers by constants: reciprocals, the test that chooses one, and the carries of a 128-bit product |
| ConfigText, ConfigLookup, ConfigNumbers, ConfigChars, ConfigPrint, ConfigStrings | the config-string text: scanners, `find_key`, numbers, strings and their escapes, printed trees |
| ConfigTrace, ConfigBuffers, ConfigOrder, ConfigMachine, ConfigScan, ConfigDevices, ConfigFault | the three passes that detect, size and fill the devices of a config string |
| ConfigMeaning | the devices that a config tree describes, read off the tree alone, and that the scan finds exactly those |
| ConfigWindows | the part of the text that a device is given, and lookups in it |
| TrapFrames, Traps, TrapSteps, TrapRuns | trap entry and exit, context switch, task creation |
| Signals | signal frames, their delivery and rt_sigreturn |
| Ipi, SpinLock, RwLocks, Counting | inter-processor interrupts and locks under any interleaving |
| MemSet, MemCpy, UserCopy, WordAtATime, Xlen | the assembly memory routines and word tricks, for 4- and 8-byte registers |
| PageTables, StackWalk | the lazily copied kernel half of page tables, and the frame-pointer walk |
| Arith, Bits | integer division, and machine words as natural numbers |

Code that works in place is a class or a method with its loops, proved against functions and
relations on values; whole-run theorems are lemmas about those. In the config files the text is
parsed once, as a function, into a tree; both of the source's traversals are proved to walk that
tree, and the tree is proved to be what was printed. Turns of long loops are methods of their own.

## What the proofs found

- `parse_u64_dec` accepts only numbers below ten: `do_div` returns the remainder, so the overflow
  test stops at the first digit after a nonzero one (DecFits, DecTwelve).
- A missing name is reported by `config_string_u64` exactly if the block that the search ends in is
  not closed by a brace before the end; otherwise it reads as 0 (MissingNoticed, MissingUnnoticed).
  For a device found by the scan: exactly if the search enters no nested block, or one that the
  text does not close (WindowLookup, DeviceLookup).
- A value behind a nested block of the same entry is taken to stand under the key read last inside that
  block, as a range of resources and in names (LastRead, ScanFinds).
- A config string of opening braces only has one block more than its root flags have room for, and
  so has the empty string (RootsFit).
- A resource block that is a device root of its own makes `parse_range` follow a null pointer
  (BlockFaultsIff, RootedResourceFaults).
- After a fault `__copy_user` returns the bytes left plus the distance from destination to source
  (CopyFaultCount). From inside the last register of the address space it faults at once when the
  destination is equally misaligned, even for no bytes (CopyUser).
- A region that ends with the address space has an end pointer of 0. `memset` and `memcpy` then stop
  after one byte or one pass of their loop (FillsAll, CopiesAll); `__copy_user` and `__clear_user`
  do nothing and return 0.
- A string over 65536 bytes is cut without a terminator in the names buffer, though the cursor moves
  on by its full length; what is left between holds what the allocator left there (WritingNames).

## Model

| member | source | states |
|---|---|---|
| Div64.DivConst32 | arch/riscv/include/asm/div64.h:21-114 | for every 64-bit n and every 32-bit b > 0 the result is n / b, whichever of the three strategies is chosen; every intermediate value fits its C type |
| Div64.ArchXprod64 | arch/riscv/include/asm/div64.h:127-161 | the result is (m*n, plus m when biased) / 2^64, for all 64-bit m and n |
| Div64.XprodCarries | arch/riscv/include/asm/div64.h:135-160 | each addition of the carry chain either cannot wrap or has its lost carry put back |
| Div64.ProbeProduct | arch/riscv/include/asm/div64.h:45-51 | the shorter carry chain of the test computes the same high word without a bias |
| Div64.CeilingReciprocal | arch/riscv/include/asm/div64.h:38-40 | a rounded-up reciprocal divides every n, except where n is in the last residue class and its rounding error reaches p * 2^64 |
| Div64.BiasedReciprocal | arch/riscv/include/asm/div64.h:61-73 | a rounded-down reciprocal with a bias divides every n if its own rounding error is at most p |
| Div64.ProbeIsLast | arch/riscv/include/asm/div64.h:42-43 | the probe x is the largest 64-bit dividend of the last residue class |
| Div64.TestDecides | arch/riscv/include/asm/div64.h:42-61 | passing the one test at x makes the rounded-up reciprocal right for every n; failing it makes the biased one right for every n |
| Div64.SpecialReciprocal | arch/riscv/include/asm/div64.h:55-60 | when the odd part o of b divides 2^64-1, (2^64-1)/o with a bias divides every n by o |
| Div64.SpecialOrComposite | arch/riscv/include/asm/div64.h:55-61 | outside the special case the divisor has an odd part above 1, so it is no power of two |
| Div64.ReciprocalTwos | arch/riscv/include/asm/div64.h:74-95 | the rounded-up m has no more factors of two than p, so reducing both is exact |
| Div64.ShiftChoicesBit | arch/riscv/include/asm/div64.h:80-82 | bit i of the choice word is set iff shifting m by i is exact and clears bit 31 of m |
| Div64.LargestChoice | arch/riscv/include/asm/div64.h:89-95 | the shift taken is the largest that clears bit 31, and the largest exact one if none does |
| Div64.ReduceReciprocal | arch/riscv/include/asm/div64.h:80-95 | m and p are divided by the same power of two, exactly, and the shift is the best one |
| Div64.GeneralReciprocal | arch/riscv/include/asm/div64.h:61-98 | either general strategy yields m, p and bias that divide n by b |
| Div64.RemainderInLowWords | arch/riscv/include/asm/div64.h:182-186 | n - (n/b)*b computed in 32-bit words is n mod b |
| Div64.PowerOfTwoTest | arch/riscv/include/asm/div64.h:175-178 | b & (b-1) == 0 means b is 1 shifted by ilog2(b) |
| Div64.DoDiv | arch/riscv/include/asm/div64.h:171-193 | n becomes n / base and the result is n mod base in every branch; base 0 is undefined in C |
| ConfigText.SkipWhitespace | arch/riscv/drivers/config.c:45-50 | stops at the first byte that is no white space (with SpaceEndIs, SpaceEndStops) |
| ConfigText.SpaceEndIs | arch/riscv/drivers/config.c:45-50 | that position is the only one with white space before it and none at it |
| ConfigText.SpaceAfterLine | arch/riscv/drivers/config.c:45-58 | white space skipped after skip_newline ends where white space skipped without it does |
| ConfigText.CharacterClasses | arch/riscv/drivers/config.c:45-71 | which characters are white space and which belong to a key or word |
| ConfigText.LineEndIs | arch/riscv/drivers/config.c:52-58 | skip_newline passes white space only, and stops behind the first newline in it or where it ends |
| ConfigText.StringEndStops | arch/riscv/drivers/config.c:60-64 | skip_string stops behind the first quote, or at the NUL if there is none |
| ConfigText.ParseEntries | arch/riscv/drivers/config.c:211-246 | the grammar of a block: the parse ends between p and the NUL, at the end or at a closing brace, so both parsers terminate on every text |
| ConfigLookup.FindKey | arch/riscv/drivers/config.c:207-247 | on every text and end: with take, the position a first-match lookup in the parse tree gives; without, where the block stops |
| ConfigLookup.MatchFlags | arch/riscv/drivers/config.c:216-222 | comparing the common length and the lengths decides equality and the dotted prefix |
| ConfigLookup.HitIsFirst | arch/riscv/drivers/config.c:225-241 | the loop over an entry's values decides by the first plain value, or by the first block |
| ConfigLookup.LookupEnds | arch/riscv/drivers/config.c:207-247 | on every text and end: a lookup that finds the value stands before the end; one that does not stands where the block it was in last ends, before the end only at a closing brace |
| ConfigPrint.PrintParses | arch/riscv/drivers/config.c:207-247 | parsing a printed tree, with any white space, gives that tree with its positions |
| ConfigPrint.FindLaws | arch/riscv/drivers/config.c:216-241 | in a printed tree the first entry of the name gives its plain value, an entry that is a dotted prefix goes on in its block, and any other entry is passed over |
| ConfigPrint.LookupFinds | arch/riscv/drivers/config.c:207-247 | the lookup stands on the text of the value that the tree gives the name; without a value it stops at the end of the block it entered last |
| ConfigStrings.ParsePrinted | arch/riscv/drivers/config.c:207-247 | parsing undoes printing, for a whole text |
| ConfigStrings.FoundIsPrinted | arch/riscv/drivers/config.c:278-292 | find_key on a printed tree stands on the name's value, and parse_string yields the bytes of that value: of a string, with its escapes decoded |
| ConfigStrings.ConfigStringStr | arch/riscv/drivers/config.c:278-297 | on every text: the full length of the value found, and as much of it in dest as maxlen allows; a missing name gives an empty string, with length 0 if it is noticed and 1 if it is not |
| ConfigChars.QuotedIsDecoded | arch/riscv/drivers/config.c:153-183 | reading a quoted string stops at its quote with the bytes that its text stands for |
| ConfigChars.DecodeEncode | arch/riscv/drivers/config.c:159-168 | every byte string, with quotes and NULs in it, can be written between quotes and is read back |
| ConfigChars.Escapes | arch/riscv/drivers/config.c:159-168 | a backslash, x and one or two hexadecimal digits stand for one byte, the first digit the higher one |
| ConfigStrings.ConfigStringU64 | arch/riscv/drivers/config.c:249-275 | an error is reported iff the position is not before the end or the number stops short of the word's end; a missing name gives 0, reported iff the block that the search ends in is not closed before the end; without a config 0, unreported |
| ConfigStrings.MissingNoticed | arch/riscv/drivers/config.c:260-264 | on every text and end: a name that is found is not reported as missing; a missing one is reported iff no brace before the end closes the block that the search ends in, and otherwise reads as 0 and as an empty string |
| ConfigStrings.PrintedMissing | arch/riscv/drivers/config.c:260-264 | in a whole printed tree that is the case iff the search enters no nested block |
| ConfigStrings.MissingUnnoticed | arch/riscv/drivers/config.c:260-275 | the concrete text a{b 5;}; in which a.c is missing: the position found is before the end and reads to its end as the number 0 |
| ConfigNumbers.ParseHex | arch/riscv/drivers/config.c:91-104 | reads digits up to the one that no longer fits (HexStop) |
| ConfigNumbers.HexFits | arch/riscv/drivers/config.c:91-104 | a hexadecimal literal is read to its end iff its value fits in 64 bits, and is then that value |
| ConfigNumbers.ParseDec | arch/riscv/drivers/config.c:116-130 | reads digits up to the first one after a nonzero digit, because do_div returns a remainder (DecStop) |
| ConfigNumbers.DecFits | arch/riscv/drivers/config.c:116-130 | a decimal literal is read to its end iff its value is below ten, and is then that value |
| ConfigNumbers.DecTwelve | arch/riscv/drivers/config.c:121-122 | the literal 12 stops behind its first digit |
| ConfigNumbers.HexDigits | arch/riscv/drivers/config.c:73-89 | exactly the sixteen digits in either case are hexadecimal, exactly ten are decimal, and each has its value |
| ConfigNumbers.U64Reads | arch/riscv/drivers/config.c:132-151 | a literal is read up to the end of its digits iff its value fits (in 64 bits, or below ten without 0x), else up to the first digit that makes it too large; the result is plus or minus the value read, modulo 2^64 |
| ConfigNumbers.ParseU64 | arch/riscv/drivers/config.c:132-151 | computes the result and the stopping place that U64Reads characterises |
| ConfigScan.Parser.ParseConfigString | arch/riscv/drivers/config.c:454-520 | in every pass: config ends where the parsed block ends, root flags become those of the block, and the buffers are the result of exactly the block's events |
| ConfigScan.Parser.ParseEntry | arch/riscv/drivers/config.c:477-517 | one turn of the outer loop is one entry of the tree |
| ConfigScan.Parser.ParseEntryValues | arch/riscv/drivers/config.c:491-511 | the inner loop is the entry's values, in order |
| ConfigScan.Parser.ConfigPath | arch/riscv/drivers/config.c:341-351 | advances the cursor by the path's length and, in pass 2, writes the dotted path with its terminator |
| ConfigChars.ParseString | arch/riscv/drivers/config.c:185-205 | returns the full length but writes at most maxlen bytes of the decoded string |
| ConfigChars.ParseQuotedString | arch/riscv/drivers/config.c:153-183 | the same for quoted strings with their escapes |
| ConfigScan.Parser.ParseInterface | arch/riscv/drivers/config.c:353-358 | records the cursor as driver_override and stores the string, truncated to 65536 bytes |
| ConfigScan.Parser.ParseRange | arch/riscv/drivers/config.c:360-410 | adds a resource iff key and value are numbers and there is a target; what it holds is said of the text by ConfigMeaning.ScanFinds |
| ConfigScan.Parser.ParseSingle | arch/riscv/drivers/config.c:412-452 | adds a resource iff the value is a number and there is a target |
| ConfigMachine.BlockTurn | arch/riscv/drivers/config.c:461-474 | entering a block: the flag tells whether it is a root, and the rest of the block does the rest of the block's events |
| ConfigMachine.EntryTurn | arch/riscv/drivers/config.c:477-516 | the block's effect is the entry's effect followed by that of the other entries, flags included |
| ConfigOrder.BlockOrdered | arch/riscv/drivers/config.c:461-474 | devices are opened one after the other, one per marked block, and used only once open |
| ConfigOrder.BlockFaultsIff | arch/riscv/drivers/config.c:399-399 | a scan follows a null parent iff some resource block is a root and holds a numeric entry |
| ConfigFault.RootedResourceFaults | arch/riscv/drivers/config.c:399-399 | a concrete text for which it does |
| ConfigOrder.RootsFit | arch/riscv/drivers/config.c:535-536 | strlen(config) flags are enough for all blocks iff some byte of the text is not an opening brace |
| ConfigOrder.QuietBlock | arch/riscv/drivers/config.c:538-542 | pass 0, which sees no roots, never follows a null parent |
| ConfigBuffers.Sizing | arch/riscv/drivers/config.c:556-568 | pass 1 stays in the device array and leaves the resource counts and the room that the names need |
| ConfigBuffers.WritingFits | arch/riscv/drivers/config.c:586-592 | no write of pass 2 leaves its buffer; the cursor advances by exactly the room counted |
| ConfigBuffers.WritingFills | arch/riscv/drivers/config.c:400-409 | the k-th resource of a device lands in the k-th element of its slice and stays there |
| ConfigBuffers.WritingNames | arch/riscv/drivers/config.c:327-358 | pass 2 leaves the names buffer as it was, overwritten by the bytes of every event at the event's own place; strings are cut at 65536 bytes |
| ConfigBuffers.OverlayAt | arch/riscv/drivers/config.c:327-358 | each event's bytes can be read at the place where the event found the cursor |
| ConfigBuffers.OverlayIsNames | arch/riscv/drivers/config.c:327-358 | without a string over 65536 bytes the buffer is all names one after the other |
| ConfigBuffers.Overridden | arch/riscv/drivers/config.c:353-358 | driver_override is that of the last interface value read for the device, in either pass |
| ConfigBuffers.LastIface | arch/riscv/drivers/config.c:353-358 | it is where the last such event found the cursor, or unchanged if there is none |
| ConfigBuffers.LastFinish | arch/riscv/drivers/config.c:513-515 | config_end is behind the last entry of the device's block, or its start if it has none |
| ConfigBuffers.WritingNamed | arch/riscv/drivers/config.c:464-515 | each device's name is where the bytes of its own path lie; its config starts where its block does and ends where its last finish says |
| ConfigDevices.DetectRoots | arch/riscv/drivers/config.c:538-542 | pass 0 marks exactly the blocks with an interface key |
| ConfigDevices.PassOk | arch/riscv/drivers/config.c:556-592 | passes 1 and 2 perform the same events, keep the flags, and open as many devices |
| ConfigDevices.SizeBuffers | arch/riscv/drivers/config.c:544-568 | as many devices as marks; counts and name size as the events of the text need |
| ConfigDevices.LayOut | arch/riscv/drivers/config.c:580-584 | slices start at the sums of the counts before them |
| ConfigDevices.WriteBuffers | arch/riscv/drivers/config.c:570-592 | after pass 2 every slice holds exactly its device's resources, slices are disjoint and fill the array, names, overrides, starts and ends are those of the events |
| ConfigDevices.OverridesReadable | arch/riscv/drivers/config.c:353-358 | the string that driver_override points to is that of the device's last interface value, cut at 65536 bytes |
| ConfigDevices.LayoutOf | arch/riscv/drivers/config.c:548-572 | devices, resources and names lie one behind the other in the common allocation, the arrays at multiples of their elements' sizes, in the least number of whole pages |
| ConfigDevices.Offsets | arch/riscv/drivers/config.c:548-572 | the source's int variables hold that layout iff its size is at most INT_MAX |
| ConfigDevices.ConfigFindDevices | arch/riscv/drivers/config.c:522-595 | the three passes together, on every text with a byte other than an opening brace and without a faulting root; ConfigMeaning.ScanFinds says what that leaves on a printed tree |
| ConfigMeaning.ScanFinds | arch/riscv/drivers/config.c:341-595 | on a printed tree, with any white space, the devices filled in are those of the tree, in order: each has the name of its path, outermost key first, the string of its last interface, and exactly the resources its tree gives it, in order; an entry of a resource block runs from its key to its value, a value directly under irq, bus or mem is both ends, and each bears the keyword's flag and the name of its block |
| ConfigMeaning.WordIsNumber | arch/riscv/drivers/config.c:132-151 | the number read at a word ends with the word iff the word spells a number, and is then that number |
| ConfigMeaning.ExampleResources | arch/riscv/drivers/config.c:399-409 | a block interface x;mem{0x1000 0x1fff;}; has the one memory resource 0x1000 to 0x1fff |
| ConfigDevices.InSync | arch/riscv/drivers/config.c:211-211 | in any pass and at any depth find_key without a name stops where parse_config_string leaves state.config |
| ConfigWindows.WindowParses | arch/riscv/drivers/config.c:513-515 | in a text cut off at config_end a block has the tree it has in the whole text, and does not end before that |
| ConfigWindows.WindowLookup | arch/riscv/drivers/config.c:207-247 | a lookup in that window gives what the block's tree gives; a missing name is reported iff the search enters no nested block, or one that the text does not close |
| ConfigWindows.DeviceWindow | arch/riscv/drivers/config.c:464-515 | every device that the scan finds has the window of a block with an interface key |
| ConfigWindows.DeviceLookup | arch/riscv/drivers/config.c:249-292 | what is looked up for a device is what its block's tree holds |
| ConfigWindows.DeviceFinds | arch/riscv/drivers/config.c:249-292 | for a block printed with any white space: the value and the bytes that the printed tree has, and a missing name is reported iff the search enters no nested block |
| TrapFrames.Hart.SaveAll | arch/riscv/kernel/entry.S:12-71 | stores all of x1 to x31, sepc, sstatus, sbadaddr and scause in a frame below the stack that sscratch selects, and nothing else; sscratch keeps the interrupted sp |
| TrapFrames.Hart.ClearScratch | arch/riscv/kernel/entry.S:116-129 | sscratch becomes 0, tp the task of the thread_info below sp, gp and ra what the kernel needs |
| TrapFrames.Hart.Dispatch | arch/riscv/kernel/entry.S:130-155 | interrupts go to do_IRQ with the cause less its top bit and the frame; a system call keeps its arguments; other exceptions go to the entry of excp_vect_table that the cause indexes, and beyond the table to do_trap_unknown, iff its offset lies beyond the table and adding the table's address does not wrap around |
| TrapFrames.Hart.EnterHandler | arch/riscv/kernel/entry.S:12-129 | a trap, SAVE_ALL and the clearing of sscratch in sequence |
| TrapFrames.Hart.BeginReturn | arch/riscv/kernel/entry.S:191-206 | turns interrupts off; puts the unwound stack pointer in sscratch iff it returns to user mode; with work pending it does not return |
| TrapFrames.Hart.RestoreCsrs | arch/riscv/kernel/entry.S:73-78 | sstatus and sepc come from the frame in memory |
| TrapFrames.Hart.RestoreRegisters | arch/riscv/kernel/entry.S:79-111 | x1 to x31 come from the frame in memory, pc and mode from the CSRs |
| TrapFrames.Hart.RetFromException | arch/riscv/kernel/entry.S:191-209 | the three in sequence |
| TrapFrames.Hart.SyscallEnter | arch/riscv/kernel/entry.S:157-163 | one word of memory changes, the frame's sepc, by 4; interrupts go on |
| TrapFrames.Hart.SyscallExit | arch/riscv/kernel/entry.S:182-184 | one word of memory changes, the frame's a0 |
| TrapFrames.Hart.SwitchTo | arch/riscv/kernel/entry.S:266-299 | x1, x2, x8, x9 and x18 to x27 are saved in the words of the previous task and come from those of the next; tp is the next task, the program continues at ra, and no other register and no other word changes |
| TrapFrames.Hart.CopyThread | arch/riscv/kernel/process.c:79-106 | the child's frame is the parent's words with a0, sp and tp changed, or made up for a kernel thread; its saved context starts at that frame |
| TrapFrames.Hart.StartProgram | arch/riscv/kernel/process.c:53-60 | three words of the frame change: sepc, sp, and sstatus with PIE, FS initial and everything else off |
| TrapFrames.TrapThenSret | arch/riscv/kernel/entry.S:191-209 | a trap and its sret change no bit of sstatus but PIE and PS, from the kernel and from user mode |
| TrapSteps.StepInv | arch/riscv/kernel/entry.S:113-209 | every step of entry and exit, every switch, fork, exec, system call and edit of a user frame keeps the invariant of stacks, frames and sscratch |
| TrapSteps.SavesOnOwnStack | arch/riscv/kernel/entry.S:16-26 | SAVE_ALL stores on the current task's own stack, at task_pt_regs or below every live frame |
| TrapRuns.RunInv | arch/riscv/kernel/entry.S:113-209 | the invariant holds at every point of every run, between the steps of entry and exit too |
| TrapRuns.BootInv | arch/riscv/kernel/entry.S:113-124 | the invariant holds of one idle task in the kernel |
| TrapRuns.SscratchTells | arch/riscv/kernel/entry.S:16-24 | wherever a trap can come, sscratch is the top of the current task's kernel stack in user mode, and 0 in the kernel, where tp is the current task |
| TrapRuns.WindowsUndisturbed | arch/riscv/kernel/entry.S:116-209 | from a trap to the clearing of sscratch and from its loading to sret the interrupt enable is off, and no trap is possible |
| TrapRuns.TrapsLandOnOwnStack | arch/riscv/kernel/entry.S:16-26 | every trap of a run lands on the current task's own stack below all live frames, at task_pt_regs if it came from user mode |
| TrapRuns.FramesDisjoint | arch/riscv/kernel/entry.S:26-26 | live frames, of one task or of two, never overlap |
| TrapRuns.StepKeepsFrame | arch/riscv/kernel/entry.S:12-209 | no step writes a word of a live frame in memory but the system call, start_thread and edits of a user frame, and they only one frame |
| TrapRuns.UntouchedKeeps | arch/riscv/kernel/entry.S:12-209 | over any stretch of a run the words of a frame that none of those write are what they were |
| TrapRuns.NestedTrapsUnwind | arch/riscv/kernel/entry.S:12-209 | whatever runs between a trap and the return through its frame, the words that RESTORE_ALL loads restore x1 to x31, pc, mode and sscratch, and every bit of sstatus but PIE and PS |
| TrapRuns.SyscallReturns | arch/riscv/kernel/entry.S:157-209 | a system call returns behind its ecall with the value that was in a0 at ret_from_syscall, and all else as it was |
| TrapRuns.ForkReturns | arch/riscv/kernel/process.c:96-104 | the child's first return is behind its parent's ecall, with 0 in a0, the stack and thread pointer asked for, all else as the parent had it, and the child's own stack in sscratch |
| TrapRuns.ForkStarts | arch/riscv/kernel/process.c:85-104 | the first switch to a new task continues at ret_from_fork or ret_from_kernel_thread with sp at its frame; a kernel thread has its function in s0 and the argument in s1 |
| TrapRuns.ExecReturns | arch/riscv/kernel/process.c:53-60 | after start_thread the next return is to user mode at the new entry and stack with interrupts on, for kernel threads too |
| TrapRuns.SwitchReturns | arch/riscv/kernel/entry.S:266-299 | a task switched out comes back at its ra with the x2, x8, x9 and x18 to x27 it had, and each of its live frames holds what it held, but for a user frame that somebody edited |
| Signals.FrameBelowSp | arch/riscv/kernel/signal.c:86-107 | signal frames are 16-byte aligned, and accessible only if they lie wholly below sp |
| Signals.Thread.GetSigframe | arch/riscv/kernel/signal.c:86-107 | the frame address, with the wrap-around of sp |
| Signals.Thread.SetupRtFrame | arch/riscv/kernel/signal.c:110-155 | siginfo, flags, link, stack, registers, floating-point state and mask are each written up to their first fault; it succeeds iff the frame is accessible and nothing faults; then a0 is the signal, a1 the siginfo, a2 the ucontext, ra the vdso, sp the frame and sepc the handler, and otherwise and in all other registers nothing changes; nothing outside the frame is written |
| Signals.HandlerStarts | arch/riscv/kernel/signal.c:134-146 | the same over every run, of the state after each delivery, with the frame it pushed |
| Signals.FaultsAre | arch/riscv/kernel/signal.c:117-129 | nothing faults iff no word of siginfo, flags, link, stack, registers, floating-point state and mask does |
| Signals.ReadableIs | arch/riscv/kernel/signal.c:45-57 | a frame can be read back iff it is accessible and no word of mask, registers, floating-point state and stack faults |
| Signals.WrittenIsSaved | arch/riscv/kernel/signal.c:110-155 | a frame written without a fault holds, word for word, what rt_sigreturn reads |
| Signals.Thread.RtSigreturn | arch/riscv/kernel/signal.c:19-71 | pc, x1 to x31, floating-point state and mask are those in memory at sp, and the restored a0 is returned; a frame that is inaccessible or faults kills the thread and 0 is returned |
| Signals.SigreturnUndoesDelivery | arch/riscv/kernel/signal.c:19-155 | over every run, at any nesting depth, the sigreturn that reads a delivery's frame back from memory restores the registers, floating-point state and mask of that delivery |
| Signals.StepKeepsFrame | arch/riscv/kernel/signal.c:86-155 | no delivery, failed delivery or sigreturn writes what a live frame holds |
| Signals.FramesApart | arch/riscv/kernel/signal.c:86-107 | over every run live frames are aligned, below the stack pointer they interrupted, and disjoint |
| Ipi.StepInv | arch/riscv/kernel/smp.c:20-59 | every atomic step of senders and handlers keeps the invariant |
| Ipi.NoLostRequest | arch/riscv/kernel/smp.c:20-59 | a set bit has a pending interrupt, an active handler or a sender that owes one; no BUG is reached; CallRequests says which requests are made |
| Ipi.CallRequests | arch/riscv/kernel/smp.c:48-59 | between the start and the return of send_ipi_message, whatever runs in between, it sets a bit for exactly the harts it is called for and then interrupts exactly these; of each of them one request more of that operation has been made |
| Ipi.OnlyItsRequest | arch/riscv/kernel/smp.c:53-54 | every request that a call makes is for its own operation and a hart it was called for, and changes nothing else of any hart |
| Ipi.SendIpiRaises | arch/riscv/kernel/smp.c:57-58 | an interrupt is raised for one hart, and nothing else changes |
| Ipi.CallHandled | arch/riscv/kernel/smp.c:20-59 | in any quiescent state after a call has returned, its operation has been handled on each of its harts for more requests than had been made before the call |
| Ipi.PassHandles | arch/riscv/kernel/smp.c:30-42 | a pass of the handler empties the word and runs the callbacks of exactly the operations in it; with an empty word the handler is done |
| Ipi.CallbackWasAskedFor | arch/riscv/kernel/smp.c:34-38 | whatever else runs, a callback runs only for an operation in the word that its hart has taken |
| Ipi.QuiescentMeansHandled | arch/riscv/kernel/smp.c:30-42 | at quiescence every request has been handled after it was last made; CallHandled says so of the requests of one call |
| Ipi.NoDeadlock | arch/riscv/kernel/irq.c:16-29 | until then some step other than a new request is possible |
| Ipi.RunBounded | arch/riscv/kernel/smp.c:30-42 | and only so many are possible without new requests |
| Ipi.ReachesQuiescence | arch/riscv/kernel/smp.c:20-59 | so outstanding requests are always driven to completion |
| RwLocks.StepInv | arch/riscv/include/asm/spinlock.h:60-137 | every instruction, with spurious failures of SC, keeps the lock word's meaning |
| RwLocks.LockWordAlways | arch/riscv/include/asm/spinlock.h:60-137 | the word is -1 with one writer and no reader, or the number of readers with no writer |
| RwLocks.ReportIsTrue | arch/riscv/include/asm/spinlock.h:88-120 | a trylock reports success exactly when it acquired, a lock only returns once it did |
| RwLocks.MutualExclusion | arch/riscv/include/asm/spinlock.h:60-137 | two CPUs that were told they hold the lock are both readers |
| RwLocks.SoloAcquires | arch/riscv/include/asm/spinlock.h:60-120 | alone, a routine acquires a lock that permits it |
| RwLocks.SoloRefused | arch/riscv/include/asm/spinlock.h:60-120 | a word that does not permit it stays as it is, and a trylock returns busy while a lock starts over; so does a routine whose store fails |
| RwLocks.UnlockFrees | arch/riscv/include/asm/spinlock.h:122-137 | a leaving reader takes one off the word, a writer makes it 0 |
| SpinLock.RunInv | arch/riscv/include/asm/spinlock.h:16-46 | the spin lock's invariant over every run |
| SpinLock.SpinLockSafety | arch/riscv/include/asm/spinlock.h:16-46 | a CPU that was told it has the spin lock has it, alone, and the word is 1; SoloLocks, SoloTries and UnlockFrees say that a free lock is taken and a released one free |
| SpinLock.SoloLocks | arch/riscv/include/asm/spinlock.h:37-46 | a lock of a free word passes the test, swaps and returns with the word 1 |
| SpinLock.SoloTries | arch/riscv/include/asm/spinlock.h:24-35 | a trylock of a free word returns success with the word 1 |
| SpinLock.BusyTries | arch/riscv/include/asm/spinlock.h:24-35 | a trylock of a taken word returns busy and leaves it 1 |
| SpinLock.BusyLocks | arch/riscv/include/asm/spinlock.h:24-46 | while the word is 1 a lock goes on spinning, and goes back to it if its swap comes too late |
| SpinLock.UnlockFrees | arch/riscv/include/asm/spinlock.h:16-22 | an unlock leaves the word 0 |
| MemSet.Memset | arch/riscv/lib/memset.S:5-104 | exactly the bytes of [p, FillEnd) become c, and p is returned, for both word sizes and every region |
| MemSet.FillsAll | arch/riscv/lib/memset.S:37-102 | FillEnd is the end of the region iff the region does not end with the address space, or is one byte, or is at least 16 bytes and at most 32 registers from its first boundary on |
| MemSet.Broadcast | arch/riscv/lib/memset.S:27-35 | the shifts and ors put c in every byte |
| MemSet.EnterLoop | arch/riscv/lib/memset.S:37-56 | the back-dated pointer and the computed jump enter at the store that leaves exactly the remainder before full rounds |
| MemSet.JumpTarget | arch/riscv/lib/memset.S:41-56 | the jump offset names the right instruction and the pointer's wrap-around is harmless |
| MemSet.FillWords | arch/riscv/lib/memset.S:57-91 | the 32-store loop fills exactly the whole words, or its first pass if their end wraps around to 0 |
| MemCpy.Memcpy | arch/riscv/lib/memcpy.S:5-85 | exactly the first CopyLength bytes of the destination become the source's, nothing else changes, and the destination is returned |
| MemCpy.CopiesAll | arch/riscv/lib/memcpy.S:31-82 | CopyLength is n iff the source does not end with the address space, or is one byte, or is copied by registers and is one block from its first boundary on |
| MemCpy.CopyBlocks | arch/riscv/lib/memcpy.S:31-71 | the block loop copies whole 16-word blocks and stops at the computed end, or after one block if that wraps around to 0 |
| MemCpy.PeelToBoundary | arch/riscv/lib/memcpy.S:16-29 | the peel leaves the source aligned and the rest to copy |
| UserCopy.CopyUser | arch/riscv/lib/uaccess.S:16-69 | without a fault all bytes are copied and 0 returned; with one, exactly a prefix; where rounding the source up wraps around, the copy by registers faults at once; where its end does, nothing is copied and 0 returned; the user window is closed on every exit |
| UserCopy.CopyFaultCount | arch/riscv/lib/uaccess.S:118-124 | the count returned after a fault is the number of bytes left iff source and destination are the same address |
| UserCopy.ClearUser | arch/riscv/lib/uaccess.S:72-124 | exactly a prefix is cleared and the result is the number of bytes that were not; it is all of them where rounding up wraps around, and where the end does, nothing is cleared and 0 returned |
| WordAtATime.HasZeroCorrect | arch/riscv/include/asm/word-at-a-time.h:15-21 | has_zero is nonzero iff some byte is zero, for words of any number of bytes, and its lowest set bit marks the first zero byte |
| WordAtATime.FindZeroCorrect | arch/riscv/include/asm/word-at-a-time.h:15-38 | find_zero of the created mask is the index of the first zero byte |
| WordAtATime.ZeroMaskCovers | arch/riscv/include/asm/word-at-a-time.h:29-33 | the created mask covers exactly the bytes before it |
| PageTables.Memory.VmallocFault | arch/riscv/mm/fault.c:200-249 | the fault copies one top-level entry, succeeds iff init_mm maps the address, and does nothing in user mode |
| PageTables.SynchronisedWalk | arch/riscv/mm/fault.c:219-246 | afterwards both walks give the same entry, and no other entry changed |
| PageTables.AddressParts | arch/riscv/include/asm/pgtable.h:107-146 | the indices of the three levels are bits 30 to 38, 21 to 29 and 12 to 20 of the address |
| PageTables.EntryFormat | arch/riscv/include/asm/pgtable.h:117-138 | an entry holds the page's number above bit 10 and is present iff bit 0 is set |
| PageTables.WalkFinds | arch/riscv/mm/fault.c:219-249 | through three present entries the walk gives the last level's entry |
| PageTables.Memory.PgdAlloc | arch/riscv/include/asm/pgalloc.h:31-44 | whatever the page held, through the new table no user address is mapped and every kernel address as by init_mm |
| PageTables.VmallocIsKernelHalf | arch/riscv/include/asm/pgtable.h:107-108 | vmalloc addresses index the kernel half |
| PageTables.StepInv | arch/riscv/include/asm/pgalloc.h:31-44 | every operation keeps each kernel half a sub-map of init_mm's |
| PageTables.KernelHalvesAgree | arch/riscv/mm/fault.c:219-246 | over every run an address space sees at a kernel address nothing or what init_mm sees |
| PageTables.FaultIsLocal | arch/riscv/mm/fault.c:219-238 | a fault changes no user entry and no other address space |
| PageTables.StaysSynchronised | arch/riscv/mm/fault.c:219-248 | once synchronised, an address space stays so |
| StackWalk.Machine.FrameAdvances | arch/riscv/kernel/stacktrace.c:41-48 | a valid frame pointer moves up by at least a frame and no further than the aligned top |
| StackWalk.Machine.FramesBounded | arch/riscv/kernel/stacktrace.c:34-51 | so the walk ends on any stack contents, within one frame per frame size |
| StackWalk.Machine.ReadsInStack | arch/riscv/kernel/stacktrace.c:34-51 | every word read lies between the first sp and its aligned top |
| StackWalk.WalkFindsCalls | arch/riscv/kernel/stacktrace.c:34-51 | on a stack of nested calls, each with its saved frame pointer and return address in the two words below its frame, the walk visits the calls' own pcs, innermost first, 4 below the return addresses |
| StackWalk.WalkStackframe | arch/riscv/kernel/stacktrace.c:34-51 | save_trace, which updates its argument in place, sees the visited pcs until it asks to stop |
| StackWalk.SaveStackTrace | arch/riscv/kernel/stacktrace.c:126-154 | the buffer holds the visited pcs without the first skip, cut at max_entries, and ULONG_MAX iff room remains |
| StackWalk.WalkWith | arch/riscv/kernel/stacktrace.c:34-51 | with any callback, its argument becomes what the callback makes of the visited pcs until it asks to stop |
| StackWalk.GetWchan | arch/riscv/kernel/stacktrace.c:103-121 | the first visited pc outside the scheduler of a blocked task, else 0 |

## Left out

- Div64.DoDiv: the out-of-line `__div64_32` is a parameter that is required to divide; lib/div64.c is not part of this model.
- ConfigDevices.ConfigFindDevices: does not model registering the devices and their sysfs attributes; the three arrays are sequences, and their byte offsets (Offsets) stand beside them.
- TrapFrames.Hart.EnterHandler: which trap is taken, and its cause and address, are parameters; so is the work pending on a return.
- TrapSteps.StepInv: one hart. SAVE_ALL and the two halves of RESTORE_ALL are single steps; interrupts may come between steps wherever they are enabled, exceptions only while code runs, so an overflowing kernel stack is not modelled.
- TrapRuns.SyscallReturns: speaks of calls whose frame nothing else edits (rt_sigreturn, exec and ptrace do); tracing is not modelled.
- TrapRuns.SwitchReturns: `schedule` chooses any task. Task structures lie outside the modelled memory.
- Signals.Thread.SetupRtFrame: the layout of the frame is a parameter, and siginfo is the words copied.
- Signals.Thread.RtSigreturn: the mask given back is taken to hold no unblockable signal; of uc_stack only whether it can be read matters.
- UserCopy.CopyUser: an access that runs past the end of memory is taken to trap.
- PageTables.Memory.PgdAlloc: a failing page allocation is not modelled.
- PageTables.Memory.VmallocFault: 64-bit tables only; the folded upper level counts as present, and the tables that the reference walk goes through exist.
- Compiled kernel code between the assembly parts is any change that keeps live frames, thread_info.task, tp and the stack's bounds.
- Register values in trap frames are natural numbers; their width matters only where the code adds to them.
- Memory is a map of words by address; frames are only accessed by whole words.
- Weak memory ordering: fences and acquire/release bits are taken to give interleaved atomic steps.
- Compressed instructions: the computed jump of memset relies on 4-byte stores, as its comment says.
- When the floating-point registers are saved and loaded, alternate signal stacks, and system call restart codes in a0.
- The code behind SBI calls, memory allocation, the scheduler, and generic interrupt and signal handling.
- Drivers that move registers or register callbacks: flash, ethernet, uart, plic, rawio, sysfs files.
- `arch_read_can_lock`, `atomic64_dec_if_positive`, `pte_mkyoung` and `pte_mkold`, and the lock balance of user-mode vmalloc faults.
- The stack walk without frame pointers, and one-line wrappers, constants and headers.
