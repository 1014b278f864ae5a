# uhyve: a verified model of the hypervisor's core

uhyve is a small hypervisor for unikernels. This project models five of its parts in Dafny and proves what they
promise:

1. **The guest address space.** `init_guest_mem` writes descriptors and a 4-level page table, `load_kernel` copies,
   clears and relocates an ELF image in the same memory, and `virt_to_phys` walks the raw words. Guest memory is one
   array of bytes. Everything that fills it is described by the list of writes it makes, so that one byte-level
   theory (`GuestMemory`: `Apply`, `LastWrite`) carries framing, repetition and contents. The walk is compared with
   the translation of section 4.5 of Intel SDM Vol. 3A, including the cases where that does not translate.
   `Buffers`, `SwBreakpoints` and `Arguments` are the users of guest memory.
2. **The legacy virtio network device**: status handshake, feature negotiation, queue registration, ring drain
   (sections 2.1, 2.6 and 3.1.1 of Virtio 1.1).
3. **The shared packet queues** between host threads and guest: every load and store is a step of its own, and steps
   interleave in any order.
4. **Boot and exit of the virtual CPUs**: admission through `cpu_online`, the barrier for two, kick, join, exit code.
5. **Debugger breakpoints**: patched code bytes, and the four hardware slots with their debug registers
   (section 17.2.4 of Intel SDM Vol. 3B).

Code that updates state in place is a class or a method over an array, proved against a function of the old state;
the theorems are about those functions and about whole runs of them. Threads are transition systems over all
interleavings.

| file | source |
|---|---|
| `Bits.dfy`, `GuestMemory.dfy` | 64-bit words digit by digit; guest memory and lists of writes |
| `Paging.dfy`, `Walker.dfy` | src/paging.rs, `virt_to_phys` of src/linux/vcpu.rs |
| `Descriptors.dfy`, `AddressSpace.dfy` | `create_gdt_entry`, `init_guest_mem` of src/vm.rs |
| `Loader.dfy`, `LoaderTheorems.dfy`, `LoadedWords.dfy` | `load_kernel` of src/vm.rs |
| `Buffers.dfy`, `Arguments.dfy`, `ArgumentDelivery.dfy` | `memory` of src/linux/vcpu.rs; `write`, `cmdsize`, `cmdval` of src/vm.rs |
| `Virtqueue.dfy`, `VirtqueueLayout.dfy`, `VirtioNet.dfy`, `VirtioHandshake.dfy`, `VirtioLink.dfy` | src/linux/virtqueue.rs, src/linux/virtio.rs |
| `SharedQueue.dfy`, `RxRing.dfy`, `TxRing.dfy` | src/shared_queue.rs, the network threads of src/linux/uhyve.rs |
| `BootProtocol.dfy`, `BootTermination.dfy` | `run_no_gdb` of src/linux/mod.rs |
| `SwBreakpoints.dfy`, `HwBreakpoints.dfy`, `HwReports.dfy` | src/linux/gdb/breakpoints.rs, src/arch/x86_64/registers/debug.rs |

## Modelling decisions

- Words are naturals; sums on 64, 32 and 16 bits wrap explicitly, as in a release build.
- `AvailIter` yields the ring slot, not the descriptor number stored there; the model follows the code, and
  `Virtqueues.AgreesWithRingIff` says exactly when that agrees with the standard.
- Section 4.5 of Intel SDM Vol. 3A gives bits 62 to 52 other uses; `SdmWalk` asks for them to be clear.
- Opening the TAP interface, its MAC address, the packets it delivers, the answers of the operating system's
  `write`, the clock and the CPU frequency are inputs.
- An index out of bounds or a failed assertion of the source is an outcome of the model (`None`, `panicked`, `Panic`),
  not a precondition. Raw pointers that the source dereferences without a check are preconditions
  (`Readable`, `Deliverable`, `TargetsInMemory`, `InMemory`).
- A core may leave the guest without a code at any time; this covers both the kick and a crash.

## Where the code does not do what one would expect

The model keeps the code as it is. Each item names a concrete input where that shows more, and the exact condition
under which the property does hold.

- A fixed-address image, or a relocatable one whose addresses wrap on 64 bits, can overwrite the page tables:
  `FixedImageCanUnmap`, `WrappingImageCanUnmap`, `MappingKeptIff`.
- Overlapping software breakpoints that are removed first in, first out leave the opcode in the code:
  `OverlapLeavesOpcode`, `RemoveTracksIff`, `OverlayIffSafe`.
- A raw configuration write over register 6 sets the status byte: `RawStatusWriteBreaksLink`,
  `RawResetBreaksLinkLater`, `ConfigWriteKeepsLinkIff`.
- `PageTableEntry::address` reads bit 7 of a 4 KiB leaf as a page size, and rounds 1 GiB leaves to 2 MiB:
  `AddressMisreadsBit7`, `AddressNamesLeaf`.
- For a relocatable image `image_size` is the end of the last loadable header, which need not be the largest end:
  `ImageSizeCanFallShort`, `ImageSizeIsLargestEnd`.
- A notification panics with fewer than two queues, and on a descriptor shorter than a packet header:
  `NotifyWithoutQueuesPanics`, `ShortDescriptorPanics`, `NotifyPanicsIff`.
- The available ring is not read: `IteratorIgnoresRing`, `AgreesWithRingIff`.
- Sizes are cut to 32 bits, which no string that Linux passes to a program reaches: `LongVariableIsCut`,
  `SizesMatchDeliveries`.
- The main thread can wait for ever in three ways: two exiting cores pass the barrier together and it waits there
  alone (`TwoExitersHang`); one pairs with it, and the next exiter waits for a partner that never comes, so that its
  join never returns (`LateExiterHangs`); a core leaves before its increment, and its successors spin
  (`EarlyExitHappens`). `EndsIff` is exact for all of them.

## Model

| member | source | states |
|---|---|---|
| Paging.HugeBit | src/paging.rs:77-88 | the HUGE_PAGE test of an entry is bit 7 |
| Paging.PresentBit | src/paging.rs:77-84 | the PRESENT test of an entry is bit 0 |
| Paging.AddressIsFrame | src/paging.rs:68-75 | `address` is the frame, bits 62 down to 21 or 12, at the size bit 7 selects |
| Paging.FlagsMeaning | src/paging.rs:124-127 | `flags` is the low 12 bits plus EXECUTE_DISABLE |
| Paging.PageTableEntry.Set | src/paging.rs:96-116 | panics exactly on a misaligned address, leaving the word; otherwise the entry is present and gives back address and flags |
| Paging.PageTableEntry.SetFlags | src/paging.rs:118-122 | the flags become the argument's flag bits and bits 12 to 62 stay |
| Paging.SetRoundTrip | src/paging.rs:66-128 | `address` and `flags` undo `set`, up to the added PRESENT, for every combination of flag bits |
| Paging.SetFlagsKeepsFrame | src/paging.rs:118-127 | `flags` undoes `set_flags`, and the frame is kept |
| Descriptors.EntryIsAssembled | src/vm.rs:434-440 | the masks and shifts place six disjoint fields |
| Descriptors.DescriptorRoundTrip | src/vm.rs:434-440 | the processor reads back base, limit, access byte and attributes from the descriptor, for all arguments |
| Walker.VirtToPhys | src/linux/vcpu.rs:261-281 | the mask-and-shift loop computes the raw 4-level lookup |
| Walker.LeafAddress | src/linux/vcpu.rs:273-280 | the mask expression joins the frame of the entry and the offset of the address |
| Walker.WalkRefinesSdm | src/linux/vcpu.rs:261-281 | wherever the architecture translates, the walk stays in guest memory and finds the same address, for 1 GiB, 2 MiB and 4 KiB leaves |
| Walker.EntryWalkIsSdm | src/paging.rs:66-128 | the lookup written with the entry accessors is the architecture's lookup |
| Walker.LastLevelBit7 | src/linux/vcpu.rs:267-280 | bit 7 of a last-level entry changes neither the walk nor the architecture's answer |
| Walker.AddressNamesLeaf | src/paging.rs:66-75 | `address` names the frame of a leaf if and only if the leaf is 2 MiB, a 1 GiB leaf without bits below 1 GiB, or a 4 KiB leaf without bit 7 or on a 2 MiB boundary |
| Walker.AddressMisreadsBit7 | src/paging.rs:66-75 | a present 4 KiB leaf for 0x1000 with bit 7 set, for which `address` is 0 |
| AddressSpace.InitGuestMem | src/vm.rs:464-512 | `init_guest_mem` makes exactly the listed writes |
| AddressSpace.InitMaps | src/vm.rs:464-512 | from any memory, the table words hold the mapping afterwards |
| AddressSpace.InitDescribes | src/vm.rs:476-480 | and the descriptors decode to the null, code and data segments |
| AddressSpace.MappedWords | src/vm.rs:490-510 | the table words, as numbers at their addresses |
| AddressSpace.DescriptorWords | src/vm.rs:476-480 | the descriptors, field by field at their addresses |
| AddressSpace.MappedIsTableBytes | src/vm.rs:490-510 | the mapping is there if and only if the bytes of the table words are |
| AddressSpace.WritesKeepMapping | src/vm.rs:490-510 | writes off the three table pages keep the mapping |
| AddressSpace.IdentityMapped | src/vm.rs:490-510 | every address below 1 GiB translates to itself |
| AddressSpace.SelfMap | src/vm.rs:494-497 | slot 511 shows the PML4, PDPT and PD pages, and leaf k at k times 2 MiB, for every page offset |
| GuestMemory.ApplyAt | src/vm.rs:536-686 | running a list of writes leaves, at every address, the byte of the last write that covers it |
| GuestMemory.ApplyTwice | src/vm.rs:536-686 | running a list of writes again changes nothing, even when writes overlap |
| GuestMemory.StoredRange | src/vm.rs:536-686 | a write that later ones do not touch reads back |
| GuestMemory.LeRoundTrip | src/vm.rs:536-686 | little-endian stores read back |
| Loader.Vm.WriteBootInfo | src/vm.rs:536-615 | default boot info with its padding, forwarded addresses, parameters, and the three fields of the machine |
| Loader.Vm.LoadSegments | src/vm.rs:617-675 | for every list of headers, with sums that wrap on 64 bits: the result by the first header that does not fit or whose slices are out of bounds, and unless it panics the writes of the headers before that |
| Loader.BoundsAreSound | src/vm.rs:623-648 | the slices of a segment that passes the size test are in bounds if and only if its sizes are in order, its file bytes are in the file and its end does not wrap |
| Loader.SoundHeadersResult | src/vm.rs:638-640 | on sound headers the result is InsufficientMemory if and only if some loadable segment does not fit |
| Loader.Vm.Relocate | src/vm.rs:677-686 | base plus addend at every relative target (section 4.4.1 of the System V AMD64 psABI) |
| Loader.Vm.LoadKernel | src/vm.rs:514-693 | libraries or another machine are InvalidData and change nothing; otherwise the result is that of the headers, and unless it panics memory is the old memory after the write list of the image |
| LoaderTheorems.OutcomeFits | src/vm.rs:536-686 | every write of a load stays in guest memory |
| LoaderTheorems.LoadTwice | benches/vm/mod.rs:25-29 | a repeated load leaves memory as the first one did, also when segments overlap or one does not fit |
| LoaderTheorems.LoadAvoids | src/vm.rs:536-686 | a range that no segment, no relocation and not the boot info touches stays untouched |
| LoaderTheorems.BootedAddressSpace | src/vm.rs:464-686 | from any memory, initialising and loading any relocatable image whose addresses do not wrap leaves every address below 1 GiB translating to itself |
| LoaderTheorems.BootedDescriptors | src/vm.rs:476-480 | from any memory, initialising and loading any relocatable image whose addresses do not wrap leaves a null, a 64-bit code and a data descriptor over the whole space, as the processor decodes them |
| LoaderTheorems.FixedImageCanUnmap | src/vm.rs:617-657 | a fixed-address image, given explicitly, after which no address below 512 GiB translates |
| LoaderTheorems.WrappingImageCanUnmap | src/vm.rs:624-628 | a relocatable image whose address wraps below 4 MiB, after which no address below 512 GiB translates |
| LoaderTheorems.MappingKeptIff | src/vm.rs:617-686 | a load that does not panic, of an image fixed or relocatable, wrapping or not, keeps the mapping if and only if its segments and relocations put no other byte over a table word |
| LoaderTheorems.LoadedImage | src/vm.rs:617-686 | after a load of disjoint segments and targets each byte is a relocated word's, a file byte or zero, and every byte outside image and boot info is unchanged |
| LoaderTheorems.SegmentsOver | src/vm.rs:617-675 | without any disjointness, the last segment over an address decides its byte |
| LoaderTheorems.OutcomeOver | src/vm.rs:617-686 | without any disjointness, outside the boot info a byte is that of the last relocation over it, else of the last segment, else unchanged |
| LoaderTheorems.RelocationContents | src/vm.rs:677-686 | each relocation target holds base plus addend |
| LoaderTheorems.ImageSizeIsLargestEnd | src/vm.rs:650-655 | the recorded size bounds every segment end if and only if the last loadable header does; ascending headers do |
| LoaderTheorems.ImageSizeCanFallShort | src/vm.rs:650-655 | two headers in descending order, for which the recorded size is below the largest end |
| LoaderTheorems.ImageSizeFieldIff | src/vm.rs:650-655 | the boot info holds that size after the load, wherever the segments went, if and only if no relocation puts another byte over it; relocations off the field do not |
| LoadedWords.RelocatedWord | src/vm.rs:678-682 | after a load with targets apart, the word at 0x400000 (0x800000 for a fixed image) plus the offset is that base plus the addend, or the base alone without one, both on 64 bits |
| LoadedWords.SegmentBytes | src/vm.rs:621-648 | byte d of a segment lies at its address plus d, moved by 0x400000 for a relocatable image: file bytes, then zeros |
| LoadedWords.BootParameters | src/vm.rs:573-612 | load address, memory size, stack, host address, time, frequency, core count, boot core, UART port and platform, as the guest reads them after the load |
| LoadedWords.BootDefaults | src/vm.rs:536-554 | magic number, version and core numbers, and the three network addresses, forwarded or default |
| LoadedWords.TlsFields | src/vm.rs:659-672 | start, file size and memory size of the last TLS segment |
| LoadedWords.FixedSizeIsSum | src/vm.rs:650-655 | the recorded size of a fixed image is the sum of its segment sizes on 64 bits |
| Buffers.OneTranslationPerPage | src/linux/vcpu.rs:34-38 | inside one page of any well-formed tables, one translation serves every later address |
| Buffers.IdentityContiguous | src/linux/vcpu.rs:34-38 | any buffer in the first GiB is physically contiguous |
| Buffers.PageContiguous | src/linux/vcpu.rs:34-38 | any buffer inside one page is physically contiguous |
| Buffers.WriteCall | src/vm.rs:395-416 | the bytes handed out are the physical buffer up to the sum of the answers before the first error, cut at the length; success if and only if that sum reaches the length, an error if and only if it does not and some answer is one |
| Buffers.AnswersUpToError | src/vm.rs:400-413 | whatever follows the first error counts for nothing: the sum is that of the answers before it, and an error is seen if and only if there is one |
| Buffers.WriteSendsVirtualBytes | src/vm.rs:395-416 | on a contiguous buffer those are the bytes the program sees, in order |
| Arguments.NextArgument | src/vm.rs:236-247 | what one more argument adds behind the first separator |
| Arguments.SysCmdsize.Cmdsize | src/vm.rs:225-267 | counts and sizes, as `i32`, of path, arguments and the first 128 variables; other entries untouched; panics exactly beyond 127 arguments |
| Arguments.SysCmdsize.ArgumentSizes | src/vm.rs:230-254 | the argument half of that |
| Arguments.SysCmdsize.EnvironmentSizes | src/vm.rs:255-262 | the environment half of that |
| Arguments.Cmdval | src/vm.rs:270-338 | copies the strings in order, reading each pointer when its turn comes |
| Arguments.ReservedDelivers | src/vm.rs:270-338 | with buffers apart from each other and from the pointers, no pointer changes on the way |
| Arguments.StringsDelivered | src/vm.rs:270-338 | then each buffer ends with its exact NUL-terminated string and no other byte changes |
| Arguments.SizesMatchDeliveries | src/vm.rs:225-338 | `argsz` and `envsz` announce the very number of bytes that `cmdval` writes, for every string, if and only if each size fits an `i32` |
| Arguments.LongVariableIsCut | src/vm.rs:258 | a variable of 4 GiB, longer than Linux passes to any program, would be announced as one byte |
| Arguments.TwoPhases | src/vm.rs:225-338 | with buffers of `argsz[i]` and `envsz[i]` bytes apart from each other and from both pointer arrays, each ends up with exactly its NUL-terminated string and no other byte changes |
| Arguments.CmdvalAfterCmdsize | src/vm.rs:270-338 | the same for the call itself, after `cmdsize` has filled the sizes |
| ArgumentDelivery.AnnouncedArguments | src/vm.rs:230-254 | with `before -- after` on the command line: one string for the path and one for each of `after`, each announced with its length plus one |
| ArgumentDelivery.AnnouncedEnvironment | src/vm.rs:255-262 | the first 128 variables, each announced with key and value plus two |
| ArgumentDelivery.NoSeparator | src/vm.rs:236-253 | without `--` no argument is passed on |
| ArgumentDelivery.ArgumentsArrive | src/vm.rs:279-314 | pointer 0 leads to the path, pointer 1 + i to the i-th string of `after`, each with its terminator |
| ArgumentDelivery.EnvironmentArrives | src/vm.rs:317-337 | pointer i of the environment leads to the key, `=`, the value and the terminator of variable i |
| SwBreakpoints.GdbUhyve.AddSwBreakpoint | src/linux/gdb/breakpoints.rs:48-60 | saves and patches, or reports that the breakpoint exists and changes nothing |
| SwBreakpoints.GdbUhyve.RemoveSwBreakpoint | src/linux/gdb/breakpoints.rs:62-72 | restores and forgets, or reports that there is none and changes nothing |
| SwBreakpoints.PatchAndRestore | src/linux/gdb/breakpoints.rs:48-73 | exactly the range becomes 0xCC, what was there is kept, and removing undoes adding |
| SwBreakpoints.StepIsIdentityMapped | src/linux/vcpu.rs:34-38 | off the table pages, each operation acts at its own address and keeps the mapping |
| SwBreakpoints.AddTracks | src/linux/gdb/breakpoints.rs:48-60 | adding keeps memory equal to the original with the opcode on all active ranges, overlapping or not |
| SwBreakpoints.RemoveTracksIff | src/linux/gdb/breakpoints.rs:62-72 | removing keeps it if and only if every byte shared with a later breakpoint is shared with an earlier one or was the opcode |
| SwBreakpoints.Run | src/linux/gdb/breakpoints.rs:48-73 | every run whose removals meet that condition keeps it throughout |
| SwBreakpoints.OverlayIffSafe | src/linux/gdb/breakpoints.rs:48-73 | memory is the overlay in every state of a run if and only if every removal of the run meets that condition |
| SwBreakpoints.AllRemovedRestores | src/linux/gdb/breakpoints.rs:48-73 | when such a run has removed everything, guest memory is what it was |
| SwBreakpoints.DisjointRunsAreSafe | src/linux/gdb/breakpoints.rs:48-73 | runs over disjoint breakpoints meet it in any order |
| SwBreakpoints.LifoRunsAreSafe | src/linux/gdb/breakpoints.rs:48-73 | runs that remove last in, first out meet it, overlapping or not |
| SwBreakpoints.OverlapLeavesOpcode | src/linux/gdb/breakpoints.rs:48-73 | two overlapping breakpoints removed in the order of insertion leave the opcode behind |
| HwBreakpoints.HwBreakpointSlots.TryInsert | src/arch/x86_64/registers/debug.rs:56-63 | fills the first free slot; fails if and only if four are held |
| HwBreakpoints.HwBreakpointSlots.Take | src/arch/x86_64/registers/debug.rs:65-70 | frees the first slot with that breakpoint; fails if and only if it is absent |
| HwBreakpoints.HwBreakpointSlots.ControlValue | src/arch/x86_64/registers/debug.rs:72-92 | the loop of bit insertions yields the DR7 image |
| HwBreakpoints.BitWritten | src/arch/x86_64/registers/debug.rs:84-86 | inserting an enable flag sets that bit of the register and changes no other |
| HwBreakpoints.FieldWritten | src/arch/x86_64/registers/debug.rs:87-88 | a condition or size field reads back, and no other bit of the register changes |
| HwBreakpoints.HwBreakpointSlots.Registers | src/arch/x86_64/registers/debug.rs:94-111 | the eight registers |
| HwBreakpoints.HwBreakpointSlots.StopReason | src/arch/x86_64/registers/debug.rs:113-138 | step first, otherwise by the lowest trapped slot |
| HwBreakpoints.SlotStepIsBagStep | src/arch/x86_64/registers/debug.rs:56-70 | each operation is that of a bag of capacity four |
| HwBreakpoints.SlotsRefineBag | src/linux/gdb/breakpoints.rs:75-127 | and so is every run |
| HwBreakpoints.SlotsHoldRequested | src/linux/gdb/breakpoints.rs:75-127 | only conditions that can be requested are ever in a slot |
| HwBreakpoints.ConstructorsRequest | src/arch/x86_64/registers/debug.rs:20-42 | which sizes and kinds are accepted |
| HwBreakpoints.RegistersDecode | src/arch/x86_64/registers/debug.rs:72-111 | the registers decode to exactly the occupied slots with address, size and condition |
| HwBreakpoints.StopReportsLowest | src/linux/gdb/mod.rs:84-106 | after any run a debug exception is reported without a panic if and only if it is a step or the registers enable the lowest trapped breakpoint, and the reason is that of the breakpoint the registers describe |
| HwBreakpoints.EnabledTrapsReport | src/arch/x86_64/registers/debug.rs:113-138 | when the processor traps only on breakpoints that DR7 enables, every run reports the lowest of them and never panics |
| HwReports.WatchpointRoundTrip | src/arch/x86_64/registers/debug.rs:28-138 | a watchpoint request takes the first free slot, the registers then hold its address, R/W 01 or 11 and its LEN, and a trap on it is reported with its kind and address |
| HwReports.BreakpointRoundTrip | src/arch/x86_64/registers/debug.rs:20-138 | a breakpoint request likewise, with R/W 00 |
| HwReports.RefusedRequests | src/arch/x86_64/registers/debug.rs:20-42 | other sizes, and watchpoints for reads only, are refused |
| HwReports.TakeUndoesInsert | src/arch/x86_64/registers/debug.rs:56-70 | taking undoes inserting if and only if no earlier slot holds the same breakpoint |
| HwReports.StepIsReported | src/arch/x86_64/registers/debug.rs:114-115 | a single step is reported as such, whatever else has trapped |
| HwReports.EmptySlotIsOff | src/arch/x86_64/registers/debug.rs:72-111 | an empty slot is neither enabled nor addressed, and the fixed bits of DR7 are set |
| Virtqueues.AlignIsLeast | src/linux/virtqueue.rs:96-98 | `align` is the least multiple not below its argument |
| Virtqueues.Layout | src/linux/virtqueue.rs:96-127 | the three parts are disjoint, the used ring is page aligned, and no element offset wraps on 16 bits |
| VirtqueueLayout.FieldsAt | src/linux/virtqueue.rs:36-55 | counters, ring entries and descriptor lengths, byte by byte |
| VirtqueueLayout.GuestPublishes | src/linux/virtqueue.rs:82-94 | after the guest stores v at offset 4098 the drain yields exactly the (v - last) mod 65536 slots from the device's counter on |
| VirtqueueLayout.OtherWritesDoNotPublish | src/linux/virtqueue.rs:36-41 | a guest write to any other byte, the ring's flags included, leaves what is drained unchanged |
| VirtqueueLayout.UsedElementAt | src/linux/virtqueue.rs:141-147 | the guest finds each drained slot, and length 1, at the used element that the used index named |
| Virtqueues.Virtqueue.NextAvailable | src/linux/virtqueue.rs:82-94 | one entry, or none when the counter meets the index |
| Virtqueues.Virtqueue.Drain | src/linux/virtio.rs:137-142 | exactly the difference of the counters modulo 65536, as consecutive slots |
| Virtqueues.Virtqueue.AddUsed | src/linux/virtqueue.rs:141-147 | one used element and the advanced index |
| Virtqueues.RecordStaysInUsedRing | src/linux/virtqueue.rs:141-147 | any sequence of `add_used` writes only the used ring |
| Virtqueues.DrainFrame | src/linux/virtqueue.rs:141-147 | descriptors, available ring and all other memory keep their bytes |
| Virtqueues.RecordKeepsDescriptors | src/linux/virtio.rs:143-163 | the length read for a descriptor is not changed by what was recorded before |
| Virtqueues.DrainsContinue | src/linux/virtqueue.rs:82-94 | consecutive drains form one sequence, across the 16-bit wrap-around |
| Virtqueues.DistinctIffWithinQueue | src/linux/virtqueue.rs:82-94 | no slot repeats if and only if at most 256 are outstanding |
| Virtqueues.AgreesWithRingIff | src/linux/virtqueue.rs:90-92 | the yielded slots are what section 2.6.6 of Virtio 1.1 reads if and only if those slots hold their own number |
| Virtqueues.IteratorIgnoresRing | src/linux/virtqueue.rs:90-92 | a ring whose slot 0 holds descriptor 5, for which 0 is yielded |
| Virtqueues.DrainIsRecorded | src/linux/virtio.rs:137-164 | each drained slot is in the used ring afterwards, in order, with length 1 |
| Virtqueues.UsedIndexAfterRecord | src/linux/virtqueue.rs:141-147 | the used index advances by the number recorded, modulo 65536 |
| Virtqueues.CountersAgree | src/linux/virtio.rs:137-164 | over every run from a newly registered queue in which the guest leaves the zeroed used index alone, that index equals the device's counter, and everything drained is one gapless sequence of slots |
| VirtioNet.VirtioNetPciDevice.constructor | src/linux/virtio.rs:107-123 | the initial device |
| VirtioNet.VirtioNetPciDevice.WriteStatus | src/linux/virtio.rs:171-251 | the status write as a function of the device state, with each outcome of the interface |
| VirtioNet.VirtioNetPciDevice.WriteRequestedFeatures | src/linux/virtio.rs:285-294 | features change only in the DRIVER stage, within those offered |
| VirtioNet.VirtioNetPciDevice.WriteSelectedQueue | src/linux/virtio.rs:261-266 | only the selected queue number changes |
| VirtioNet.VirtioNetPciDevice.WritePfn | src/linux/virtio.rs:269-283 | registers the next queue, in index order, between FEATURES_OK and DRIVER_OK |
| VirtioNet.VirtioNetPciDevice.HandleWrite | src/linux/virtio.rs:330-334 | raw configuration writes, and when they run off the registers |
| VirtioNet.VirtioNetPciDevice.HandleNotifyOutput | src/linux/virtio.rs:129-164 | when it panics, when it does nothing, and the new counter, status, used ring and memory when it sends, also up to a panic |
| VirtioNet.VirtioNetPciDevice.SendAvailablePackets | src/linux/virtio.rs:137-164 | every outstanding slot recorded once, in order, up to the first descriptor that is too short for a header if there is an interface |
| VirtioNet.StatusBits | src/linux/virtio.rs:217-251 | the bits of the seven status values |
| VirtioNet.StepKeepsInv | src/linux/virtio.rs:129-334 | every operation keeps the device invariant |
| VirtioNet.ReachableStates | src/linux/virtio.rs:303-313 | in every reachable state the status is one of seven values, features and queues respect the stages, and the link reads up if and only if the status is 0xF |
| VirtioLink.StepKeepsFit | src/linux/virtio.rs:129-334 | every operation, raw writes included, keeps a status byte that fits the interface |
| VirtioLink.AlwaysExactIff | src/linux/virtio.rs:303-313 | from any state, the link reads up exactly with status 0xF in every state of every continuation whose raw writes fit, if and only if the status byte fits now |
| VirtioLink.ConfigWriteKeepsLinkIff | src/linux/virtio.rs:330-334 | a configuration write of any width over the status byte keeps that, as long as later raw writes fit too, if and only if the byte it puts there fits the present interface |
| VirtioLink.NewIsAlwaysExact | src/linux/virtio.rs:107-123 | the new device has it over all operations, as long as raw writes fit |
| VirtioLink.RawStatusWriteBreaksLink | src/linux/virtio.rs:330-334 | a raw write that claims a complete handshake with the link down |
| VirtioLink.RawResetBreaksLinkLater | src/linux/virtio.rs:330-334 | a four-byte write over a completed handshake that is right at once, and leaves the link up in stage 1 after the next acknowledgement |
| VirtioNet.StepFreezes | src/linux/virtio.rs:171-294 | what no operation but a reset changes; queues are appended in index order |
| VirtioNet.FrozenUntilReset | src/linux/virtio.rs:171-294 | over every run without a reset: features frozen from FEATURES_OK, queues from DRIVER_OK, none dropped or moved |
| VirtioNet.NotifyPanicsIff | src/linux/virtio.rs:129-164 | from DRIVER_OK to the next reset a transmit notification panics if and only if fewer than two queues were registered by then, or there is an interface and some outstanding descriptor is shorter than a packet header |
| VirtioNet.ShortDescriptorPanics | src/linux/virtio.rs:149 | a run from the new device with two queues and an interface, in which a short descriptor panics |
| VirtioNet.NotifyWithoutQueuesPanics | src/linux/virtio.rs:129-139 | a run from the new device: handshake without queues, then a notification that panics |
| VirtioNet.StatusMoves | src/linux/virtio.rs:171-251 | the only moves of the status byte |
| VirtioNet.HandshakeTrace | src/linux/virtio.rs:171-251 | a run that reaches DRIVER_OK contains, after its last reset, the accepted writes 1, 3, 0xB, 0xF in order |
| VirtioHandshake.InitialisationSucceeds | src/linux/virtio.rs:171-294 | from any reachable device, a driver that initialises it as the standard asks ends with the offered ones of its features, both queues, the address, and the link up |
| VirtioHandshake.NewIdentifies | src/linux/virtio.rs:107-123 | the configuration space and hardware address of a new device, byte by byte |
| VirtioHandshake.FeatureBits | src/linux/virtio.rs:285-294 | in the DRIVER stage a feature is negotiated afterwards if and only if it is offered and was negotiated or is asked for; otherwise nothing changes |
| VirtioHandshake.ResetClears | src/linux/virtio.rs:173-178 | a reset clears status, features, selection, queues and interface, and nothing else |
| VirtioHandshake.StageAccepted | src/linux/virtio.rs:216-234 | the first three stages change nothing but the status byte |
| VirtioHandshake.LastStage | src/linux/virtio.rs:237-251 | the last stage with each outcome of the interface |
| VirtioHandshake.StatusRefused | src/linux/virtio.rs:171-251 | every other status write is ignored |
| VirtioHandshake.QueueRegistered | src/linux/virtio.rs:269-283 | a queue is registered if and only if the status is 0xB and the selected number is the next one |
| VirtioHandshake.NotificationSends | src/linux/virtio.rs:137-164 | the counter moves to the available index, and a reset is asked for exactly if there is something to send and no interface |
| VirtioHandshake.ServedIff | src/linux/virtio.rs:129-134 | only queue 1 of a device at DRIVER_OK is served |
| VirtioHandshake.ConfigWritten | src/linux/virtio.rs:330-334 | a raw write changes exactly the bytes it covers, and panics exactly past the end |
| VirtioHandshake.LinkReads | src/linux/virtio.rs:303-313 | the link reads up exactly with an interface and without FAILED and NEEDS_RESET |
| SharedQueues.SharedQueue.Init | src/shared_queue.rs:18-27 | counters and lengths are zero, buffers keep their bytes |
| SharedQueues.TrueDistance | src/linux/uhyve.rs:65-67 | the wrapped difference is the true one while the counters are at most eight apart |
| RxRing.HostSlotIsFree | src/linux/uhyve.rs:93-104 | the slot the host writes is none that is still unread |
| RxRing.HostKeepsInv | src/linux/uhyve.rs:88-110 | every load and store of the reader thread keeps the ring invariant |
| RxRing.GuestKeepsInv | src/linux/uhyve.rs:88-110 | so does every step of the consumer |
| RxRing.ReceiveSafety | src/linux/uhyve.rs:81-112 | under every interleaving `read <= written <= read + 8`, unread slots are intact and not written, and delivery is an in-order prefix of what was received |
| RxRing.ReceivesIff | src/linux/uhyve.rs:89-93 | in every reachable state the reader receives if and only if fewer than eight packets are unread |
| RxRing.PassPublishes | src/linux/uhyve.rs:88-110 | while there is room, five steps of the reader receive and publish exactly one packet |
| RxRing.Fills | src/linux/uhyve.rs:81-112 | the reader alone fills the queue: any packets up to eight are received and published in turn |
| RxRing.ConsumerTakes | src/shared_queue.rs:10-27 | a consumer that polls a queue with an unread entry takes the oldest one in four steps |
| RxRing.NothingIsLost | src/linux/uhyve.rs:81-112 | a consumer that finds the queue empty has taken everything published |
| TxRing.TokenFindsPacket | src/linux/uhyve.rs:63-69 | a writer that holds a token always sees a packet |
| TxRing.SpuriousTokenIgnored | src/linux/uhyve.rs:63-69 | a token that finds equal counters sends nothing and leaves the queue as it is |
| TxRing.HostKeepsInv | src/linux/uhyve.rs:62-78 | every step of the writer thread keeps token conservation and order |
| TxRing.GuestKeepsInv | src/linux/vcpu.rs:352-358 | so does every step of the producer |
| TxRing.TransmitConservation | src/linux/uhyve.rs:52-79 | in every reachable state unsent packets equal outstanding tokens, packets leave in order, and none is stranded when no token remains |
| TxRing.OneTokenOnePacket | src/linux/uhyve.rs:62-78 | under every interleaving the packets sent are the oldest ones, one for each token received except one still in hand |
| TxRing.TokenIsSpent | src/linux/uhyve.rs:62-78 | a writer that finds a token sends the oldest packet in six steps, and that one only |
| TxRing.NetWriteIff | src/linux/vcpu.rs:352-358 | in every reachable state with a packet to announce, the notification goes through if and only if the channel, which holds one token, is empty |
| TxRing.ProducerPublishes | src/shared_queue.rs:10-27 | a producer that finds room publishes its packet |
| BootProtocol.StepKeepsInv | src/linux/mod.rs:89-156 | every step of every thread keeps admission order, barrier pairing and the collected codes |
| BootProtocol.AdmissionInOrder | src/linux/mod.rs:116-120 | in every run the admitted cores form a prefix and at most one is in startup |
| BootProtocol.AllKickedBeforeJoins | src/linux/mod.rs:141-149 | in every run no core is kicked before the barrier is passed, cores are kicked in order and once each, and all have been kicked when the joins begin |
| BootProtocol.PassesAfterExit | src/linux/mod.rs:140-144 | the main thread passes the barrier only after a core exited with a code |
| BootProtocol.OddNumberOfCodes | src/linux/mod.rs:140-154 | all joins succeed only with an odd number of exit codes |
| BootProtocol.ReturnsTheUniqueCode | src/linux/mod.rs:140-155 | the value returned is the only exit code, after every core was admitted and ended; the length assertion fails only with three codes or more |
| BootTermination.EndsIff | src/linux/mod.rs:89-156 | at every point of every run the main thread can still come to its end if and only if no core has left before letting its successor in, and some core is still to exit or an odd number has exited with a code |
| BootTermination.QuietOutcome | src/linux/mod.rs:123-155 | once every core is at the barrier or has ended: with an even number of codes the main thread never ends, with an odd number it can, and every end is the same, the return of the one code or the failed assertion |
| BootTermination.TwoExitersHang | src/linux/mod.rs:123-141 | a run of two cores that exit before the main thread reaches the barrier, after which it waits there in every continuation |
| BootTermination.LateExiterHangs | src/linux/mod.rs:123-148 | a run in which one core pairs with the main thread and the other waits at the barrier for ever, so that the join never returns |
| BootTermination.NextAdmittedIff | src/linux/mod.rs:116-120 | the next core can still be admitted, in some continuation, if and only if the core whose turn it is has not left before its increment |
| BootTermination.EarlyExitHappens | src/linux/mod.rs:116-130 | a run of two cores in which the first leaves so, after which the main thread never ends |
| BootTermination.EarlyExitBlocks | src/linux/mod.rs:116-120 | when a core has left so, all later cores spin and the main thread never ends, in every continuation |

## Left out

- Walker.VirtToPhys: tables outside guest memory are a precondition (`Readable`), because the source dereferences raw pointers there.
- Loader.Vm.LoadKernel: for an image that is relocated, targets outside memory, which the source does not check, are excluded; what guest memory holds after a panic is not stated.
- Loader.Vm.WriteBootInfo: the four padding bytes at the end of the boot info are an input, because the language leaves them open.
- Arguments.Cmdval: pointers outside guest memory, which the source does not check, are excluded.
- Buffers.WriteCall: the operating system's answers are a finite list; a writer that is never answered again is `Blocked`.
- VirtioNet.VirtioNetPciDevice.HandleNotifyOutput: the packet bytes read through the descriptor and handed to the interface are not modelled, and sending from a queue outside guest memory, which the source does not check, is excluded.
- HwBreakpoints.ConstructorsRequest: the check that an address is canonical is not modelled.
- RxRing.ReceiveSafety: the two threads and the guest are a transition system on values, not objects, because their steps interleave; the race of `init` with a guest that already runs is not modelled.
- TxRing.TransmitConservation: assumes, as the guest driver does, one NETWRITE for each packet published and a producer that checks for space.
- BootProtocol.AdmissionInOrder: assumes that each core's startup code increments `cpu_online` once; that a kick ever arrives is not claimed.
- KVM calls, CPUID, MSR and segment setup, VMX emulation and register dumps.
- The port dispatch of the virtual CPU loop and the PCI address port.
- ELF parsing, and the clock and frequency probes.
- TAP device input and output.
- The gdbstub event loop, signals and polling, and the register copying for the debugger.
- The two-slot memory layout of `Uhyve::new`.
- The file system calls other than `write`, and the serial port.
- The macOS port.
- Command-line parsing, huge page detection and benchmarks.
