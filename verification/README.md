# Verification of the IA-32 emulator core

A Dafny 4.11 model of the parts of the emulator whose correctness spans functions: the interpreter and the
block-cache tier over the same machine, paged memory with copy-on-write forks, ELF loading and the initial stack, the
serializers (tar, filesystem snapshot, WebSocket frames), the wait-queue protocols, the region allocator, and the
arithmetic and string instructions beneath them. `dafny verify dfyconfig.toml` checks everything.

| file | models |
|---|---|
| Words, Buffers, Paths | 32-bit wrap-around, byte buffers, absolute paths |
| FlatMemory, Regions | memory as the processor sees it, and runs of bytes in it |
| Alu, SubRegisters, MulDiv, StringOps | ADD/SUB/logic with flags, conditions, long arithmetic, MUL/DIV, REP string instructions |
| Interpreter, Translation, BlockCache, JitTier | `CPU.step`, `BlockCacheJIT.compile` and its closures, the cache and its run loop, the object |
| Instructions | what each instruction of the subset does to the machine, from its assembled bytes |
| CopyOnWrite, Paging, FlatView, Mmap | shared pages as values, as objects, seen byte by byte, and the region allocator with `_mmap` |
| Guests | processors running in forked memories, turn by turn |
| ElfImage, ElfDynamic, InitialStack | segments and relocations, the dynamic section, `setupInitialStack` and what reads it back |
| Tar, Snapshot, WebSocket | writers and readers that undo each other |
| Futex, ByteQueue | wait queues under every interleaving |

Where the source updates an object in place, the object is a class here and each method is proved equal to a function
of its old state; the properties are then proved about those functions over all inputs or all runs. Exceptions are
results (`None`, `Stop`, `ok == false`). Calls into code that is not modelled are parameters: the system call layer
and the untranslated instructions are arbitrary functions of the machine, the symbol resolver, the JSON codec, the
clock and random bytes are arguments.

Findings. For each but the last, which is one-way, the exact condition is proved over all inputs:

* a cached block that wraps past 2^32 (or ends exactly there) is dropped by no store to its bytes; invalidation is
  complete for a block if and only if it does not wrap (`BlockCache.InvalidateCompleteIff`), and such a block does go
  stale (`BlockCache.WrappingBlockGoesStale`);
* `forceWrite8` leaks into the other forks exactly when the page is shared and the byte changes
  (`CopyOnWrite.ForceWriteIsolatesIff`);
* a permission belongs to the shared page: `mprotect`, and `map` over mapped pages, is visible to the other forks
  exactly when it changes the permission of a page that one of them maps (`CopyOnWrite.ProtectIsolatesIff`, `CopyOnWrite.ProtectLeaks`);
* forked processes share one futex table keyed by address alone, so a wake can go to a waiter of another memory
  (`Futex.StolenWake`); a wake leaves nobody asleep on an old value exactly when each such sleeper has fewer than
  `count` waiters ahead, other processes' counted (`Futex.WakeSufficesIff`);
* OF after SBB and AF after ADC and SBB come out wrong for one second operand each, whose increment by the carry
  overflows what the flag is told from (`Alu.SbbOverflowIff`, `Alu.AuxiliaryCarry`);
* a REP string instruction that faults does not update ECX, which is right exactly when its first element faulted
  (`StringOps.FaultCountIff`, `StringOps.FaultLosesCount`);
* `parseTarEntries` returns exactly when its size fields lead it to no offset twice (`Tar.EndsIff`); one header of size
  "-1000" and it never does (`Tar.Stuck`), though a size that leads backwards need not be fatal (`Tar.BackAndDone`);
* a tar member with a fitting name comes back whole exactly when its numbers fit, its mode is not 0 and its link name
  fits (`Tar.RestoredIff`);
* `_readCStringArray` gives the strings back exactly when there are at most 4096, each shorter than 2^20 bytes
  (`InitialStack.ReadCStringArrayIff`);
* the WebSocket decoder's result depends on chunking exactly when the stream has an oversize header or a complete
  frame after a close frame (`WebSocket.ChunkingIndependentIff`);
* a restored filesystem equals the saved one exactly when the root has inode 1, device 0 and no link count
  (`Snapshot.RestoredIff`); the container is exact below 4 GiB only (`Snapshot.UnpackIff`);
* a mapping that reaches into the last page of the address space is reported as mapped but is not
  (`Mmap.EndPageWraps`, `Mmap.MmapAnywhere`);
* a running block is not stopped when it overwrites itself (`Translation.SelfModificationDiverges`); it agrees with the
  interpreter when its pushes, which can be followed through the block before it runs, stay clear of its bytes
  (`Translation.CheckedBlockSimulates`).

## Model

| member | source | states |
|---|---|---|
| `Words.WrapIsMod` | src/util.js:5 | bringing a number back to a word is taking it modulo 2^32, for numbers of either sign |
| `Words.BytesRoundTrip` | src/memory.js:149 | a word is recovered from the four bytes `write32` stores, which are its digits to base 256 |
| `FlatMemory.WordRoundTrip` | src/memory.js:129-149 | `read32` after `write32` at the same address returns the word, at every address, also across the top of memory |
| `FlatMemory.WriteFromFrame` | src/memory.js:149 | a word store changes no byte but its own four |
| `FlatMemory.WriteFromStoresOnly` | src/memory.js:132-149 | a store maps and protects nothing and reports every byte it changes, also when it faults half way |
| `Regions.WriteBytesDone` | src/memory.js:167 | storing a run in memory mapped for it succeeds, puts exactly that run there and changes nothing else |
| `Regions.StoreBytes` | src/memory.js:167 | the byte loop, with the bytes before a fault kept |
| `Alu.AddExact` | src/cpu.js:206-219 | result and CF together are the exact sum of operands and carry |
| `Alu.SubExact` | src/cpu.js:221-232 | result and CF together are the exact difference; ZF means a zero result |
| `Alu.AddFlags` | src/cpu.js:198-219 | ADD and ADC: OF is signed overflow, ZF zero, SF the sign, at all widths |
| `Alu.SubFlags` | src/cpu.js:198-232 | SUB: OF is signed overflow, ZF zero, SF the sign, at all widths |
| `Alu.SbbOverflowIff` | src/cpu.js:221-232 | OF after SBB with a borrow is signed overflow if and only if the second operand is not the largest positive number; for that it is the opposite |
| `Alu.AuxiliaryCarry` | src/cpu.js:204-232 | AF is the carry out of, or the borrow into, the low four bits, if and only if there is no carry in or the low four bits of the second operand are not all set |
| `Alu.LogicBits` | src/cpu.js:234-252 | bit k of OR, AND and XOR is "or", "and" and "different" of the bits k of the operands, for every bit at every width; the higher bits are clear; CF, OF and AF are clear |
| `Alu.XorSelf` | src/cpu.js:251 | `xor r, r` gives 0 and sets ZF |
| `Alu.ParityBits` | src/cpu.js:198-203 | PF says whether the number of set bits in the low byte of the result is even |
| `Alu.CompareConditions` | src/cpu.js:221-277 | after CMP the codes 2/3/6/7, C/D/E/F and 4/5 decide the unsigned order, the signed order and equality |
| `Alu.LongAddExact` | src/cpu.js:206-255 | ADD then any chain of ADC is exact addition of any number of limbs, CF the carry out |
| `Alu.LongSubExact` | src/cpu.js:221-255 | SUB then any chain of SBB is exact subtraction, CF set exactly when a < b |
| `MulDiv.MulExact` | src/cpu.js:745-750 | MUL leaves the exact product in the pair, CF/OF tell whether the high half is in use, nothing else changes |
| `MulDiv.IMulExact` | src/cpu.js:751-756 | IMUL leaves the exact signed product, CF/OF set exactly when it needs more than w bits |
| `MulDiv.DivExact` | src/cpu.js:757-778 | DIV overflows exactly when the high half is >= the divisor; otherwise q*d + r is the dividend with r < d |
| `MulDiv.IDivExact` | src/cpu.js:757-778 | IDIV divides towards zero, the remainder smaller than the divisor with the dividend's sign, overflow only when the quotient does not fit |
| `MulDiv.DivideByZeroIff` | src/cpu.js:757-778 | DIV and IDIV divide by zero exactly when the operand is 0, the overflow of `DivExact` and `IDivExact` being told apart from it |
| `MulDiv.DivUndoesMul` | src/cpu.js:745-778 | DIV after MUL by the same operand restores the accumulator with remainder 0 and never overflows |
| `StringOps.HandleStringOp` | src/cpu.js:334-392 | the instruction's loop computes the result of the element-by-element specification |
| `StringOps.BlockCopy` | src/cpu.js:334-351 | forward REP MOVS at every width is a block copy when the destination does not start strictly inside the source; every other byte is unchanged; registers move past the blocks |
| `StringOps.PeriodicFill` | src/cpu.js:334-351 | forward REP MOVSB at distance k repeats the k bytes before the destination: byte i is source byte i mod k |
| `StringOps.BlockFill` | src/cpu.js:363-371 | forward REP STOS fills the block with AL, AX or EAX in turn and changes nothing else |
| `StringOps.FirstMatch` | src/cpu.js:352-391 | REP/REPNE CMPS and SCAS in both directions stop just after the first ending element with ECX the elements left and ZF its outcome, or go through with ECX 0; memory untouched |
| `StringOps.RepLods` | src/cpu.js:372-379 | REP LODS in both directions leaves the last element read in the low part of EAX, the rest of EAX unchanged, moves ESI by the elements and clears ECX |
| `StringOps.Unprefixed` | src/cpu.js:334-392 | without a prefix exactly one element is handled and ECX is left alone |
| `StringOps.FaultCountIff` | src/cpu.js:334-392 | after a fault ECX is as before the instruction; that is the number of elements left if and only if the first element faulted |
| `StringOps.FaultLosesCount` | src/cpu.js:334-392 | a REP MOVSB that faults at its second element, with ECX too high by one |
| `Interpreter.PushThenPop` | src/cpu.js:93-113 | a 32-bit pop returns what a push stored and restores ESP, wherever the stack is |
| `Interpreter.PushThenPop16` | src/cpu.js:93-113 | a 16-bit pop returns the low half of what a push was given and restores ESP |
| `Interpreter.StepStoresOnly` | src/cpu.js:624-798 | every instruction of the subset changes memory by reported stores only and counts one step; for the others it holds by the shape of `Effect` |
| `Interpreter.InterpCompose` | src/cpu.js:795-798 | running a steps and then b is running a + b |
| `Interpreter.FetchFaults` | src/cpu.js:624-798 | an instruction with a byte that cannot be fetched stops with registers, flags and memory unchanged, eip at that byte |
| `Instructions.StepDoes` | src/cpu.js:624-798 | where the bytes of an assembled instruction lie, `step` does what the instruction means: exact results and flags of the eight arithmetic and logic operations, INC and DEC without CF, the stack word and ESP, jumps by signed displacements |
| `Translation.DecodeMatches` | src/jit.js:44-67 | each closure agrees with `step` on the instruction it was decoded from, exceptions included |
| `Instructions.Compiles` | src/jit.js:44-72 | the compiler takes every assembled instruction, with its length, and ends the block at a jump, return or system call |
| `Instructions.CompilesIff` | src/jit.js:44-68 | the compiler takes the bytes at an address if and only if they are one of the assembled instructions |
| `Instructions.ClosureDoes` | src/jit.js:44-80 | a closure does what the assembled instruction means |
| `Translation.DecodeLocal` | src/jit.js:44-67 | decoding looks at the instruction's own bytes only |
| `Translation.CompileLocal` | src/jit.js:36-72 | `compile` depends only on the bytes of the block |
| `Translation.CompileIff` | src/jit.js:36-72 | a block is what `compile` makes if and only if its closures are those of the instructions from its start on, one after the other, up to the first that ends a block or until the room for instructions or bytes is used up |
| `Translation.BlockSimulates` | src/jit.js:36-80 | `block.run` ends in exactly the machine that one `step` per closure ends in, or stops with the interpreter at the same instruction, when the block is left undisturbed |
| `Translation.NoPushInside` | src/jit.js:47 | a block none of whose pushes lands in its own bytes is undisturbed |
| `Translation.MissesIff` | src/jit.js:47 | the test of one push, with ESP on either side of the wrap, is exactly that none of its four bytes is the block's |
| `Translation.CheckedBlockSimulates` | src/jit.js:36-81 | a compiled block whose pushes, ESP followed through the block from its value before, miss the block ends where the interpreter does |
| `Translation.SelfModificationDiverges` | src/jit.js:76 | a program on which a block that overwrites itself and the interpreter differ |
| `BlockCache.InvalidateExact` | src/jit.js:25-31 | a store drops a non-wrapping block exactly when it hits one of its bytes |
| `BlockCache.InvalidateCompleteIff` | src/jit.js:25-31 | every store into a block drops it if and only if the block does not wrap; a wrapping block is dropped by none |
| `BlockCache.WrappingBlockGoesStale` | src/jit.js:25-31 | a block that `compile` makes across the top of memory stays cached after a store to its second byte, which `compile` would now refuse |
| `BlockCache.CoherentAfterStores` | src/jit.js:25-31 | after any stores, what is left in the cache is still what `compile` would produce |
| `BlockCache.RunCoherent` | src/jit.js:25-99 | the cache is coherent at every loop head of every run |
| `BlockCache.HotIff` | src/jit.js:83-97 | over every run an address is compiled when the loop has come to it hotThreshold times without a block and not before, the block then runs at once, a cached block runs, and otherwise one step is made |
| `BlockCache.TurnKeeps` | src/jit.js:25-97 | a non-wrapping block, old or just compiled, is in the cache after a turn exactly when the turn stored into none of its bytes |
| `BlockCache.TurnSimulates` | src/jit.js:83-97 | a turn of the loop is between one and maxBlockInsns interpreter steps, or the interpreter's exception |
| `BlockCache.TurnProgress` | src/jit.js:83-97 | every completed turn adds at least one step, whatever the cache holds |
| `BlockCache.TierSimulates` | src/jit.js:83-99 | after any number of clean turns, for any thresholds, the machine equals the interpreter's at the same step count; exceptions coincide |
| `JitTier.BlockCacheJIT.Invalidate` | src/jit.js:25-31 | the loop deletes exactly the overlapping blocks and counts them |
| `JitTier.BlockCacheJIT.CompileBlock` | src/jit.js:36-81 | the decoding loop computes `Compile` |
| `JitTier.BlockCacheJIT.Execute` | src/jit.js:74-79 | running the closures one by one is `RunBlock` |
| `JitTier.BlockCacheJIT.TurnOnce` | src/jit.js:84-97 | one turn of the object is one turn of the model |
| `JitTier.BlockCacheJIT.Run` | src/jit.js:83-99 | the loop ends; from a coherent cache with clean turns it is the interpreter's run, with steps in [max, max + maxBlockInsns - 1] at the limit |
| `CopyOnWrite.StepIsolates` | src/memory.js:62-149 | a store, map, unmap, mprotect or fork changes the spaces' contents exactly as private flat memories would, and keeps the sharing invariant |
| `CopyOnWrite.RunIsolates` | src/memory.js:62-206 | the same over every run of any number of forked spaces |
| `CopyOnWrite.WriteKeepsPerms` | src/memory.js:132-148 | a store changes no permission in any space |
| `CopyOnWrite.ForceWriteIsolatesIff` | src/memory.js:150 | a forced store isolates if and only if the byte already had the value or no other space maps the page |
| `CopyOnWrite.ProtectIsolatesIff` | src/memory.js:100-108 | protecting a page, or mapping over a mapped one, leaves every other space's permissions alone if and only if the permission is the old one or no other space maps the page |
| `CopyOnWrite.ForkSeesProtect` | src/memory.js:189-206 | after any fork the child sees a change of permission of the parent's page |
| `CopyOnWrite.ProtectLeaks` | src/memory.js:100-108 | a parent that makes its only page read-only takes the write permission from its child |
| `FlatView.PokeIsFlat` | src/memory.js:132-148 | a store in one of several sharing spaces changes that space's flat memory in one byte and no other space's |
| `FlatView.StoreIsFlat` | src/memory.js:132-148 | a store by one of several sharing spaces is the flat `write8` on its own bytes and invisible to the others |
| `Guests.RunsAlone` | src/runtime.js:143-162 | under every schedule of guests in forked memories, each stepped guest is where the interpreter on a private memory is after as many steps, and spaces without a turn keep their bytes |
| `Guests.RunnerSimulates` | src/runtime.js:132-142 | the guest that runs through the block cache follows the interpreter on a private memory too, whatever the other guests store; the cache stays coherent |
| `Guests.TurnAlone` | src/runtime.js:53 | one turn of a guest changes its own machine as in a private memory, and no other guest or space |
| `Paging.PagedMemory.Unshare` | src/memory.js:135-143 | the copying branch of `write8`, on the page objects |
| `Paging.PagedMemory.Write8` | src/memory.js:132-148 | faults exactly when the page is not mapped writable; otherwise only this space's contents change, by one byte |
| `Paging.PagedMemory.Map` | src/memory.js:62-73 | new zero pages where there were none, no existing byte changed; every page of the family in the range gets the permission and no other changes its own; an empty range does nothing |
| `Paging.PagedMemory.Unmap` | src/memory.js:90-97 | removes the range from this space only, stopping at a missing page unless told not to |
| `Paging.PagedMemory.Mprotect` | src/memory.js:100-108 | sets the permission of the range and no other, changes no byte, fails exactly when a page is missing |
| `Paging.PagedMemory.Clone` | src/memory.js:189-206 | a copy-on-write clone starts with its parent's contents, all others unchanged |
| `Paging.PagedMemory.ShareWith` | src/memory.js:192-196 | the loop puts the same pages in the child's table and counts each once more |
| `Paging.PagedMemory.FindFreeRegion` | src/memory.js:110-123 | the lowest aligned start in range whose whole run of pages is unmapped, or none exists |
| `Paging.PagedMemory.WriteBytes` | src/memory.js:167 | stores a prefix up to the first fault; faults nowhere on pages of its own |
| `Mmap.MappingHolds` | src/syscalls.js:471-480 | a new mapping holds the file's bytes, then zeros to the end of its last page; all else is unchanged |
| `Mmap.EndPageExact` | src/memory.js:62-73 | the pages `map` touches are the pages the allocator looked at |
| `Mmap.EndPageWraps` | src/memory.js:62-73 | when the run reaches the top of the address space the end page wraps to 0 and `map` touches none |
| `Mmap.Fill` | src/syscalls.js:474-480 | opening the pages, copying the file's bytes and restoring the permission succeeds on pages of its own |
| `Mmap.MmapAnywhere` | src/syscalls.js:465-483 | takes the lowest free run, changes no object that existed, and yields the file slice followed by zeros with the permission asked for; at the top of the address space nothing is mapped |
| `ElfImage.LoadSegmentDone` | src/elf.js:61-74 | a proper segment loads without fault, its bytes are in place, nothing mapped outside it changes, its pages get its permission |
| `ElfImage.SegmentAccess` | src/elf.js:19-25 | on every page of a loaded segment a read succeeds iff the low three flags are not 1, 2 or 3, a store iff they hold W (2), the page is executable iff they hold X (1), and code is fetched from executable and readable pages |
| `ElfImage.ImageAccess` | src/elf.js:64-73 | after the whole image each address on a page of a segment can be read, written and run as the flags of the last segment there say, whatever the segments before it left |
| `ElfImage.ImageBytes` | src/elf.js:50-77 | every loaded address holds the file byte at `vaddrToOffset`, every address from filesz to memsz zero, everything else its old byte, or zero on a new page |
| `ElfImage.LoadFromReadable` | src/elf.js:19-25 | with readable segments every byte of the image is readable, also where pages of two segments overlap |
| `ElfImage.LoadedByte` | src/elf.js:173-179 | the loader and `vaddrToOffset` agree |
| `ElfImage.RelocateDone` | src/elf.js:211-236 | each disjoint site ends with the word its type gives from the word before any relocation; no byte outside the sites changes |
| `ElfImage.RelocatesIff` | src/elf.js:217-231 | relocating goes through if and only if every site can be read and, for a strict caller, every type is known |
| `ElfImage.UnresolvedUnchanged` | src/elf.js:223-226 | a site whose symbol is not found is unchanged |
| `ElfImage.RelocatedWord` | src/elf.js:217-231 | the word of each type: S + A, S + A - P, S for GLOB_DAT and JMP_SLOT, B + A, modulo 2^32 |
| `ElfImage.RelativeWord` | src/elf.js:222 | an R_386_RELATIVE site ends with the file word plus the bias modulo 2^32 |
| `ElfImage.RelocatedImage` | src/elf.js:50-98 | the loaded and relocated image, byte by byte |
| `ElfImage.ForceDone` | src/memory.js:152 | a forced word store writes its word and nothing else |
| `ElfDynamic.DynamicSeen` | src/elf.js:186-209 | the dynamic entries and relocation tables parsed from the file are those a program finds by following the pointers in its loaded memory |
| `ElfDynamic.SelfRelocated` | src/elf.js:211-236 | the image is relocated by its own tables: at the site of every entry the loaded program finds is what the entry's type makes of the file word where no symbol is known, and the bytes off the sites are the file's |
| `ElfDynamic.OffsetIn` | src/elf.js:173-179 | with segments apart, `vaddrToOffset` finds the segment that holds the address |
| `ElfDynamic.ParseIff` | src/elf.js:186-209 | parsing gives exactly: the entries of the first header of type 2 up to the first tag 0, and the tables at the file offsets of the first entries of the tags 17 and 23, with the sizes of 18 and 2 and the entry size of 19 or 8; it throws otherwise |
| `ElfDynamic.GetFirst` | src/elf.js:200 | `get` gives the value of the first entry of a tag, or 0 |
| `ElfDynamic.DynamicLast` | src/elf.js:75 | the dynamic address is that of the last header of type 2, moved by the bias |
| `ElfDynamic.LoadsIff` | src/elf.js:50-98 | loading goes through if and only if every segment loads and, when relocations are wanted and there is a dynamic section, it parses and every site can be read |
| `ElfDynamic.ParseElf32DynamicInfo` | src/elf.js:186-209 | the loops over the section and its two tables compute the specification, out-of-range reads included |
| `ElfDynamic.ApplyElf32Relocations` | src/elf.js:211-236 | one loop a table computes the relocation of both lists in order |
| `ElfDynamic.LoadElf32Image` | src/elf.js:50-98 | the segment loop, then the file's own relocations when there is a dynamic section and the caller does not refuse them |
| `ElfImage.ApplyRelocations` | src/elf.js:216-233 | the loop over one table computes the specification |
| `ElfImage.StoreZeros` | src/elf.js:69-72 | the zero-fill loop stores exactly that many zeros |
| `InitialStack.SetupLaidOut` | src/elf.js:107-142 | when the layout fits mapped memory no store faults, ESP ends where the sizes say, the words and strings lie in place and nothing outside the stack changed |
| `InitialStack.InitialStackReadBack` | src/elf.js:107-142 | argc, argv, the environment, the auxiliary vector up to (0,0) and the strings its pointers lead to read back, cut or faulting as the array reader does |
| `InitialStack.AuxReadBack` | src/elf.js:130-135 | every pair of the auxiliary vector is where a reader looks for it |
| `InitialStack.AuxLooksUp` | src/elf.js:130-135 | a program that looks up a key in its memory finds the value that belongs to it, key by key (AT_PHDR the headers, AT_BASE the interpreter's base, AT_ENTRY the program's entry, and so on), or none; keys the caller gives itself go first |
| `InitialStack.ReadCStringHeld` | src/util.js:23 | a terminated string reads back exactly when it is shorter than 2^20 bytes |
| `InitialStack.ReadCStringArrayHeld` | src/syscalls.js:294-303 | for all NUL-free strings in place, an array of pointers reads back cut at 4096, or faults at the first string of 2^20 bytes or more among those |
| `InitialStack.ReadCStringArrayIff` | src/syscalls.js:294-303 | the strings read back if and only if there are at most 4096, each shorter than 2^20 bytes |
| `InitialStack.SetupInitialStack` | src/elf.js:107-142 | the pushing loops compute the specification |
| `InitialStack.ReadCStringLoop` | src/util.js:23 | the byte loop computes the specification |
| `InitialStack.ReadCStringArrayLoop` | src/syscalls.js:294-303 | the pointer loop computes the specification |
| `InitialStack.Builder.Strings` | src/elf.js:122-126 | strings from last to first, their addresses in order |
| `Paths.NormClean` | src/tar.js:19-26 | a normalized path has no empty part, no "." and no "..", and normalizing is idempotent |
| `Paths.NormalizeParts` | src/vfs.js:83 | a relative path is resolved from the names of the working directory on, an absolute one from the root, and normalizing the outcome again from anywhere changes nothing |
| `Paths.PartsRoundTrip` | src/vfs.js:83 | resolving the path of a list of names gives the names back |
| `Paths.DotDotUndoes` | src/vfs.js:83 | ".." undoes the name before it: s/name/../t and s/t are the same path |
| `Paths.DotDotAtRoot` | src/vfs.js:83 | at the root ".." stays |
| `Paths.EmptyPartSkipped` | src/tar.js:19-26 | empty parts and "." may be left out anywhere |
| `Paths.LastPart` | src/tar.js:19-26 | a last part "..", "." or empty does to a path what it does in the middle of one |
| `Paths.NameKept` | src/tar.js:19-26 | a name is kept, after what is before it |
| `Paths.ChildPath` | src/snapshot.js:14-17 | extending a path by a name, and its dirname and basename undo each other |
| `Paths.NormPath` | src/tar.js:19-26 | the loop over the parts computes the normal path |
| `Snapshot.Collector.Visit` | src/snapshot.js:23-51 | the traversal lists every node exactly once, with its metadata and its slice of the blob |
| `Snapshot.CollectVfsEntries` | src/snapshot.js:19-57 | the entries and the one blob describe the whole tree |
| `Snapshot.InstallLookup` | src/snapshot.js:74-94 | installing an entry puts that node in place, empties what was below it, touches nothing else and makes no directory when its parent exists |
| `Snapshot.ParentBefore` | src/snapshot.js:111-112 | in path-length order the parent of the next entry is already there |
| `Snapshot.RestoreCollected` | src/snapshot.js:96-114 | restoring a listing gives the same names, types, metadata, targets and bytes, only the root's number, device and link count reset |
| `Snapshot.RestoredIff` | src/snapshot.js:75-79 | the tree comes back unchanged if and only if the root has those values |
| `Snapshot.UnpackIff` | src/snapshot.js:59-72 | the container gives its parts back exactly when both are shorter than 2^32 |
| `Snapshot.PackFront` | src/snapshot.js:59-72 | the container starts with the magic number "OXFS1", version 1, the number of entries and the two lengths modulo 2^32, lowest byte first |
| `Snapshot.SaveAndLoad` | src/snapshot.js:59-114 | collecting, packing, unpacking and restoring is the identity up to the root |
| `Snapshot.Extensional` | src/vfs.js:19-29 | a tree is determined by what can be looked up in it |
| `Snapshot.RestoreVfs` | src/snapshot.js:111-112 | the install loop computes the specification |
| `Tar.OctalRead` | src/tar.js:14-18 | a number field reads back as the octal digits it has room for |
| `Tar.PadLast` | src/tar.js:147 | padding and slicing keeps the low octal digits |
| `Tar.HeaderRead` | src/tar.js:154-160 | every field of a written header reads back, with the ustar magic and a valid checksum, whatever was announced before |
| `Tar.ArchiveRead` | src/tar.js:57-99 | reading a written archive gives one entry a member, in order, for all names, numbers, types and bytes; members of type L and K name the next |
| `Tar.LongNameRead` | src/tar.js:86-89 | a name of any length reaches the reader in a member of type L before it, a link name in one of type K |
| `Tar.RestoredIff` | src/tar.js:142-167 | a member with a fitting name comes back whole if and only if its numbers, size and link name fit and its mode is not 0 |
| `Tar.RoundTrip` | src/tar.js:142-167 | archives of fitting members read back as those members |
| `Tar.BareRestored` | src/tar.js:149-155 | bare content under a fitting name comes back whole, as a regular file of user and group 0 with mode 0644 and the time of writing |
| `Tar.RecordRestored` | src/tar.js:148-160 | a record comes back with each field it gives, a field left out as for bare content |
| `Tar.NormStrip` | src/tar.js:154 | stripping leading slashes does not change the normal path |
| `Tar.EndsIff` | src/tar.js:62-97 | the reader returns if and only if its size fields lead it to no offset twice, and then within a number of turns known before |
| `Tar.NextIff` | src/tar.js:96 | a turn goes forward exactly when the size is above -512, and stands still exactly when it is above -1024 besides |
| `Tar.ForwardEnds` | src/tar.js:62-97 | a reader that meets only sizes above -512 returns |
| `Tar.StandsStill` | src/tar.js:62-97 | a reader that meets a size from -1023 to -512 never returns |
| `Tar.Stuck` | src/tar.js:62-97 | one header with the size "-1000" on which the reader never returns |
| `Tar.BackAndDone` | src/tar.js:62-97 | an input on which the reader steps back and yet returns |
| `Tar.ReadsOnce` | src/tar.js:57-99 | the entries of an input on which the reader returns are determined |
| `Tar.ChecksumIff` | src/tar.js:92-95 | an entry's checksum is reported valid iff its field is 0 or the sum of the header with eight blanks for the field |
| `Tar.CorruptionTold` | src/tar.js:92-95 | a written header with one byte outside the checksum field changed is read with an invalid checksum |
| `Tar.PrefixedName` | src/tar.js:81-90 | a ustar prefix is put before the name with a slash, unless a longer name was announced |
| `Tar.BuildHeader` | src/tar.js:154-160 | the header filled in field by field is the specified one |
| `Tar.CreateTar` | src/tar.js:142-167 | the chunk and copy loops compute the archive of the members with their defaults filled in |
| `Tar.ParseTarEntries` | src/tar.js:57-99 | watched for any number of turns on any bytes, offsets below 0 included, the loop has returned the specified entries or still runs |
| `Tar.ComputeChecksum` | src/tar.js:92-93 | the checksum loop counts its own field as blanks, and is NaN for a part of a header |
| `WebSocket.MaskInvolution` | tools/net-gateway.mjs:58-63 | masking twice with the same key is the identity |
| `WebSocket.MaskBits` | tools/net-gateway.mjs:58-63 | bit k of unmasked byte i differs from bit k of the byte on the wire exactly when bit k of key byte i mod 4 is set |
| `WebSocket.MaskZero` | tools/net-gateway.mjs:58-63 | the zero key leaves a payload as it is |
| `WebSocket.NextExtend` | tools/net-gateway.mjs:47-64 | once a frame is complete later bytes do not change it |
| `WebSocket.ChunkingIndependentIff` | tools/net-gateway.mjs:44-69 | every chunking gives the same events and residue if and only if there is no oversize header and no complete frame after a close |
| `WebSocket.FrameReceived` | tools/net-gateway.mjs:32-39 | the decoder undoes the encoder for every opcode, key and length, and refuses exactly the payloads above 64 MiB |
| `WebSocket.ClientFrame` | tools/net-gateway.mjs:47-64 | a complete client frame laid out by section 5.2 of RFC 6455, in any length form: text, binary and continuation frames deliver the payload, a close ends the drain, any other opcode delivers nothing; the decoder goes on right after the frame |
| `WebSocket.SentWire` | tools/net-gateway.mjs:32-39 | `sendFrame` puts a final binary frame on the wire: no mask, the shortest length form, highest byte first, then the payload |
| `WebSocket.SentDrained` | tools/net-gateway.mjs:32-69 | decoding any concatenation of sent frames gives exactly the payloads and keeps nothing |
| `WebSocket.SentThenReceived` | tools/net-gateway.mjs:32-69 | the same however the network cuts the stream |
| `WebSocket.WriteFrame` | tools/net-gateway.mjs:32-39 | filling the header buffer gives the specified frame |
| `WebSocket.WsParser.Push` | tools/net-gateway.mjs:44-69 | the decoder's loop computes the drain of its buffer |
| `Futex.RunGood` | src/sync.js:56-80 | over every interleaving each waiter is resolved at most once, the table holds exactly the pending waiters, in arrival order, with no empty list, and a timer runs iff its waiter is pending and asked for one |
| `Futex.WaitSleepsIff` | src/syscalls.js:692-702 | a wait goes to sleep iff the word has the expected value, last in its address's line, its timer running iff it asked for one; otherwise nothing changes |
| `Futex.TimerSettles` | src/sync.js:59-67 | the timer of a sleeping waiter that asked for one settles that waiter alone, as timed out; any other timer does nothing |
| `Futex.StepCauses` | src/sync.js:59-80 | a waiter is woken only by a wake at its address, and times out only by its own timer |
| `Futex.RunCauses` | src/sync.js:59-80 | the same over every run |
| `Futex.WakeFifo` | src/sync.js:73-79 | a wake resolves min(count, pending) of its address's waiters, the longest waiting first |
| `Futex.WokenIff` | src/sync.js:73-79 | a wake reaches a waiter exactly when fewer than count wait at its address ahead of it |
| `Futex.WakeSufficesIff` | src/sync.js:73-79 | a wake leaves nobody asleep who saw another value if and only if each of them has fewer than count waiters ahead, those of other memories counted |
| `Futex.AllAreEnough` | src/sync.js:73-79 | a wake for everyone who waits at the address, in any memory, is enough |
| `Futex.StolenWake` | src/runtime.js:54 | a run in which a waiter of another memory takes the wake and the waiter it was for sleeps on |
| `Futex.StartGood` | src/sync.js:57 | the empty table is in order |
| `Futex.NoLostWakeup` | src/syscalls.js:692-702 | after a store and a wake for enough waiters, nobody sleeps who saw another value, however the waits fell, with any number of memories sharing the table |
| `Futex.FutexTable.Wait` | src/sync.js:59-67 | enqueues at the end of the address's list |
| `Futex.FutexTable.RemoveWaiter` | src/sync.js:68-72 | removes the first occurrence and the key with its last waiter |
| `Futex.FutexTable.WakeUp` | src/sync.js:73-79 | shifts the oldest waiters off and stops their timers |
| `Futex.FutexTable.Expire` | src/sync.js:63 | the timer removes its waiter and is no longer armed |
| `ByteQueue.StreamFifo` | src/io.js:11-55 | over every run no byte is lost, duplicated or reordered, readers block only on an empty open queue, and an empty result for a nonzero count means closed and drained |
| `ByteQueue.StepFills` | src/io.js:28-54 | a read that is answered, at once or later, gets exactly min(count, bytes there) of what no read before it was given |
| `ByteQueue.ReadsFilled` | src/io.js:28-54 | the same over every run |
| `ByteQueue.ByteQueue.Take` | src/io.js:28-41 | takes exactly min(count, bytes there) from the front of the stream across chunks |
| `ByteQueue.ByteQueue.FlushWaiters` | src/io.js:42-47 | serves waiting readers in order |
| `ByteQueue.ByteQueue.Push` | src/io.js:19-26 | appends unless closed or empty, then serves readers |
| `ByteQueue.ByteQueue.Close` | src/io.js:27 | closes the queue and serves everyone waiting |
| `ByteQueue.ByteQueue.Read` | src/io.js:48-54 | answers at once or queues the reader |

## Left out

- Instructions the block compiler does not accept (prefixes, memory operands, the rest of the opcode map) and the system calls: arbitrary in the tier model, except that they reach memory through stores only, so calls that map, unmap or protect pages or replace the memory object are excluded there (the cache is not flushed by them).
- Interpreter.StepStoresOnly: says something of the instructions of the subset; the others are given as effects that are stores.
- BlockCache.TierSimulates: asks that a block does not overwrite instructions it has yet to run; one direction, because a block that overwrites them with the same meaning also agrees. `Translation.SelfModificationDiverges` shows the condition is needed, `Translation.CheckedBlockSimulates` gives a check that can be made before the block runs.
- JitTier.BlockCacheJIT.TurnOnce: delivers the invalidations of a turn after it instead of during it; a running block is never stopped by them, so the order cannot be observed.
- Guests.RunnerSimulates: one guest of a family runs through the cache, the others are stepped; forked children get the same cache object, but nothing in the repository runs them through it. Forks happen between schedules.
- Snapshot.Collector.Visit: takes the names of a directory in any order, where the source sorts them; the order of a restored directory's map is not modelled.
- Snapshot.Restore: the tree is a value, not heap nodes, so hard links and parent pointers are not captured; a hard-linked file is restored as two files.
- Tar.ParseTarEntries: strings are byte strings, so only ASCII white space is skipped before a number, and names are not decoded. The entries of an endless run, which the source never returns, are not described.
- Tar.ArchiveRead: asks for members below 8^11 bytes, the largest size its field holds; what the reader makes of the rest of a longer member is not described.
- Tar.CreateTar: members are a list, not a JavaScript object with its key order; a type is one character and numbers are not negative. `mountTar` and gzip are not modelled.
- InitialStack.InitialStackReadBack: strings are byte strings.
- ElfImage.ImageBytes: asks for segments that lie below the last page, do not overlap and are not larger in the file than in memory; `parseELF32` (the program headers are given), minAddr, maxAddr, brk and the interpreter are not modelled.
- ElfDynamic.DynamicSeen: asks that the dynamic section and its tables lie in the file parts of segments and that DT_RELENT, when given, is at least 8; DT_NEEDED and the symbol tables are not modelled, and what is compared is the image before its relocations are applied.
- Paging.PagedMemory.Clone: the deep copy without copyOnWrite and the name map are not modelled.
- Paging.PagedMemory.FindFreeRegion: page size and alignment are 4096; no caller passes an alignment.
- Paging.Page: `data` is a sequence that a store replaces, so aliasing of the byte array itself is not captured.
- `PagedMemory.loadBytes` (src/memory.js:154-162), which like `forceWrite8` stores without unsharing; the relocation stores go through `forceWrite8` and are covered by `CopyOnWrite.ForceWriteIsolatesIff`.
- `unmap` does not lower `refCount`, so the sharing invariant is a bound.
- Mmap.MmapAnywhere: MAP_FIXED and `PagedMemory.mmap` are not modelled.
- Futex.RunGood: promises and timers are numbers, and requeue operations, which the source treats as wakes, are not separate.
- EFLAGS is a record of its arithmetic bits; shifts, rotates, IF and TF are not modelled. `parity8` is stated as an even number of ones, not by its table.
- x87, SSE, 16-bit addressing, segment loads, the overlay filesystem, networking, persistence, kernel tables and the command line.
