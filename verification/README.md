# Allwin boot tools, modelled and verified

The repository holds boot software and disk tools for Allwinner A10 boards. This project models
its stateful and arithmetic cores in Dafny and proves what they promise:

* the buddy allocator of the board-side program (`BuddyPartition`, `BuddyHeap`);
* the board as a USB disk: the SCSI target and its Bulk-Only Transport state machine
  (`ScsiTarget`, `BulkOnlyDevice`, `MassStorage`), what each command does from the bytes of its
  wrapper (`CommandWrapper`, `ScsiCommands`, `ScsiReplies`), and what a mount grants over whole runs
  (`MountedRuns`);
* the command protocol between the host program and the board, from file to flash and back
  (`BootDiskDevice`, `BootDiskHost`);
* the bulk endpoints of the second boot program, whose transmit and receive machines share one
  cursor, and the mass-storage protocol they speak (`UsbExchange`, `UsbCommands`,
  `UsbEndpoint`);
* fields of floating-point formats and the IBM long double validator (`FloatFormat`, over
  `BitFields`), and how its answer relates to rounding (`DoubleRounding`);
* software division, numbers as text, the INI parser, and the eGON boot image (`SoftDivision`,
  `NumberText`, `ScriptLines`, `BootScript`, `Egon`).

Code that changes state is a class or a method proved against a function on values; what the code
promises is then proved about that function for all inputs or all runs. `ScsiTarget`, for example,
says on values what one command does, `BulkOnlyDevice` proves safety, framing and the life of
sense data over it, and every handler in `MassStorage` is proved to do exactly that.

## Where the code does not do what one would expect

* `malloc` of 0xFFFFFFF9 to 0xFFFFFFFC wraps to a chunk of no words and destroys the heap;
  requests up to 0xFFFFFFFF whose rounding wraps otherwise get too little memory
  (`PayloadCoversRequest`, `WrappedRequests`, `EmptyChunkCorrupts`). The header comment of
  `malloc.c` says that the size is "rounded up" to a power of two; the code takes a power of two
  strictly above `(size + 7) >> 2`, and the model follows the code.
* A mount whose first sector and count wrap at 32 bits is accepted and leaves the disk
  (`MountStaysOnDisk`, `WrappingMountEscapes`). The same holds at 64 bits for the partition check
  of `diskread` (`ReadStaysInPartition`, `WrappingReadAccepted`).
* A command whose direction or length the device rejects leaves older sense data in place, and a
  REQUEST SENSE refused for a stray byte leaves the older information field, which the next REQUEST
  SENSE sends as valid; no other command does either (`OwnSenseUnlessKept`, `StaleSenseReported`,
  `StaleInformationReported`).
* An exit command with an unknown mode is never answered, so the host would wait for ever
  (`SendCommand`, `Silent`).
* In the second boot program an unknown SCSI command gets no status (`RunCommand`, `NoStatus`). The
  residue of a success is wrong exactly if READ(10) or WRITE(10) ask for more than the host announced, or if data
  is announced for a command without any (`ResidueAddsUp`, `TooShortWraps`).
* A receive timeout in the middle of a write leaves the receive endpoint occupied (`BulkXfer`,
  `HostFallsSilent`). The machine then reads the rest of that write as if it were a command wrapper,
  and takes the same write up once more (`AwaitCommand`).
* Its WRITE(10) shifts the sector number left by 9 in 32 bits: from 4 GB on it writes elsewhere than
  READ(10) reads, sector 2^23 over the first one of the partition (`WritesWhereItReads`,
  `WriteToFarSectorHitsTheFirst`).
* The comment in `floatformat_ibm_long_double_is_valid` demands that the top half be the sum rounded to
  the nearest double. The code compares the bottom half with half an ulp in either direction; below a
  power of two doubles are twice as dense, so it accepts pairs whose sum rounds elsewhere
  (`ValidExactlyIfRounded`, `AcceptedWithoutRounding`).
* `__aeabi_idiv` is wrong for one pair of operands, the smallest integer and -1 (`SignedDiv`).
  `__aeabi_idivmod` returns the remainder only when the quotient is not negative or the remainder
  is -1 anyway (`SignedDivMod`); the smallest integer prints as a bare sign (`SignedRoundTrip`).
* A line of a single character at the end of an INI text is taken for two (`GetScriptLine`). A base
  address that is no number takes the signs of the number parsed before it, so that the order of
  the lines matters, unless these signs agree (`BaseIndependentOfOrder`, `TextBaseDependsOnOrder`).
* The size check of the boot image does not keep its padding inside the buffer
  (`SizeCheckIsNotEnough`, `SecondPaddingDecides`).

## Model

| member | source | states |
|---|---|---|
| `BuddyPartition.TwinIsHeader` | allwindisk/arm/malloc.c:80-84 | In a tiling the twin address of a chunk, if inside the area, is the start of a chunk and never payload |
| `BuddyPartition.WholeRegion` | allwindisk/arm/malloc.c:79-89 | In a coalesced heap an aligned power-of-two region without allocated chunks lies in one free chunk |
| `BuddyPartition.PartitionDetermined` | allwindisk/arm/malloc.c:79-89 | Canonical form: two coalesced heaps with the same allocated chunks are the same partition |
| `BuddyPartition.ScanIsFirstFit` | allwindisk/arm/malloc.c:50-57 | The plain scan finds the lowest free chunk that is large enough, and none exactly when there is none |
| `BuddyPartition.ScanUnique` | allwindisk/arm/malloc.c:50-57 | "Lowest free chunk that fits, or none" has only one answer |
| `BuddyPartition.TakeKeepsValid` | allwindisk/arm/malloc.c:58-64 | Splitting and marking keeps the heap a coalesced tiling and adds exactly one allocated chunk |
| `BuddyPartition.ReleaseKeepsValid` | allwindisk/arm/malloc.c:77-89 | Freeing and merging keeps the heap a coalesced tiling and removes exactly one allocated chunk |
| `BuddyPartition.TakeReleaseRestores` | allwindisk/arm/malloc.c:59-89 | The merges undo the splits and stop at the original chunk |
| `BuddyPartition.DecompositionValid` | allwindisk/arm/malloc.c:24-35 | The binary decomposition of the area is a coalesced tiling with nothing allocated |
| `BuddyPartition.EmptyHeapIsInitial` | allwindisk/arm/malloc.c:24-35 | Any coalesced heap without allocated chunks is that decomposition |
| `BuddyHeap.PayloadCoversRequest` | allwindisk/arm/malloc.c:44-48 | The payload holds the request if and only if `size + 7` does not wrap at 32 bits |
| `BuddyHeap.WrappedRequests` | allwindisk/arm/malloc.c:44-48 | What a wrapping request asks for: an empty chunk for four sizes, two words for the others |
| `BuddyHeap.NeedIsNextPow2` | allwindisk/arm/malloc.c:44-48 | A request that does not wrap takes the least power of two strictly above `(size + 7) >> 2` words |
| `BuddyHeap.KeepHighestBit` | allwindisk/arm/malloc.c:45-47 | Clearing lowest bits until one is left yields the largest power of two not above the number |
| `BuddyHeap.HalveToFit` | allwindisk/arm/malloc.c:33-34 | Halving the previous size yields the largest power of two that still fits |
| `BuddyHeap.StrideIsSafe` | allwindisk/arm/malloc.c:50-57 | A stride by the larger of chunk and request lands on a header or the end and skips nothing that fits |
| `BuddyHeap.TwinWordDecides` | allwindisk/arm/malloc.c:80-85 | Comparing the word at `offset ^ size` with the own header tells exactly whether the twin is free and whole |
| `BuddyHeap.PayloadsDisjoint` | allwindisk/arm/malloc.c:63-66 | Live payloads do not overlap |
| `BuddyHeap.AllocatedIsFirstFit` | allwindisk/arm/malloc.c:38-67 | NULL if and only if no bytes are asked for or no free chunk fits; else the lowest fitting chunk is allocated in the rounded size, and nothing else changes |
| `BuddyHeap.FreedRemovesOne` | allwindisk/arm/malloc.c:69-90 | After a free exactly its block is no longer allocated |
| `BuddyHeap.StepObserved` | allwindisk/arm/malloc.c:38-90 | What every step of a run does to the allocated chunks |
| `BuddyHeap.EmptyChunkCorrupts` | allwindisk/arm/malloc.c:44-64 | After an empty allocation no tiling of the area has these header words |
| `BuddyHeap.RunKeepsWellFormed` | allwindisk/arm/malloc.c:16-90 | Every heap reachable by allocations and frees of live pointers is a coalesced tiling |
| `BuddyHeap.DrainedHeapIsInitial` | allwindisk/arm/malloc.c:24-35 | Once every block has been freed, in any order, the partition is what `malloc_init` wrote |
| `BuddyHeap.MallocFreeRestores` | allwindisk/arm/malloc.c:38-90 | A successful allocation followed by its free restores the partition, from any reachable heap |
| `BuddyHeap.Heap.constructor` | allwindisk/arm/malloc.c:16-36 | Initialization writes headers that describe the binary decomposition of the area |
| `BuddyHeap.Heap.MarkFree` | allwindisk/arm/malloc.c:27-35 | The header-writing loop describes the greedy decomposition |
| `BuddyHeap.Heap.Search` | allwindisk/arm/malloc.c:49-57 | The stride-skipping loop over headers agrees with the scan of every chunk |
| `BuddyHeap.Heap.Isolate` | allwindisk/arm/malloc.c:58-62 | The halving loop over headers is the repeated split of the chunk and touches nothing outside it |
| `BuddyHeap.Heap.Malloc` | allwindisk/arm/malloc.c:38-67 | NULL if and only if no bytes are asked for or no free chunk fits, else the word behind the header of the lowest fitting chunk, which is allocated in the rounded size; the headers stay those of a tiling if and only if the request does not wrap to an empty chunk; no payload word changes |
| `BuddyHeap.Heap.Free` | allwindisk/arm/malloc.c:69-90 | Exactly the freed block is no longer allocated, and the partition is the old one with its chunk freed and merged; only header words change |
| `BuddyHeap.Heap.Coalesce` | allwindisk/arm/malloc.c:78-89 | The merge loop over header words does all merges and no more |
| `BuddyHeap.Heap.Run` | allwindisk/arm/malloc.c:16-90 | Any client that allocates, frees live pointers and overwrites live payloads at will: the headers always describe the partition the reference operations give |
| `ScsiTarget.CapacityReported` | allwindisk/arm/masstorage.c:481-499 | The last sector's number, the number of sectors and the sector size arrive at the host |
| `BulkOnlyDevice.MountStaysOnDisk` | allwindisk/arm/masstorage.c:1149-1167 | An accepted mount lies on the disk if and only if first sector plus count does not wrap |
| `BulkOnlyDevice.WrappingMountEscapes` | allwindisk/arm/masstorage.c:1157-1161 | A concrete mount that is accepted and leaves the disk |
| `BulkOnlyDevice.AnswerShape` | allwindisk/arm/masstorage.c:687-732 | Every command sends at most one data phase of exactly the announced length, then one status with its tag and a residue between 0 and that length |
| `BulkOnlyDevice.PerformResidue` | allwindisk/arm/masstorage.c:765-776 | A command subtracts at most its data size from the residue, and only if it prepares no reply |
| `BulkOnlyDevice.VerifyWithin` | allwindisk/arm/masstorage.c:378-394 | All pieces that VERIFY reads lie inside the mounted window |
| `BulkOnlyDevice.ExecuteSafe` | allwindisk/arm/masstorage.c:873-1089 | No command reaches outside the mounted window, writes on a read-only mount, changes window or mode, or ejects while removal is prevented |
| `BulkOnlyDevice.EveryRunIsSafe` | allwindisk/arm/masstorage.c:1105-1167 | The same for every step of every run of well-formed packets and non-wrapping mounts |
| `BulkOnlyDevice.PowerUpRunsAreSafe` | allwindisk/arm/masstorage.c:1091-1103 | ... from power-up on |
| `BulkOnlyDevice.DataCollected` | allwindisk/arm/masstorage.c:1128-1145 | However outstanding data is cut into packets, nothing is sent before the last one; the command then runs once on the concatenation |
| `BulkOnlyDevice.OutCommandRunsOnce` | allwindisk/arm/masstorage.c:1105-1147 | The whole OUT command, header and data, has exactly the effect of running it once on the first bytes of the data |
| `BulkOnlyDevice.RequestSensePasses` | allwindisk/arm/masstorage.c:428-479 | A well-formed REQUEST SENSE passes, returns the sense data and clears it |
| `BulkOnlyDevice.SenseDataExact` | allwindisk/arm/masstorage.c:471-477 | Key, code, qualifier, information and validity are recovered from the 18 bytes |
| `BulkOnlyDevice.OwnSenseUnlessKept` | allwindisk/arm/masstorage.c:778-861 | What a command leaves in the unit is independent of earlier sense data, information included, if and only if it is neither rejected for direction or length nor a REQUEST SENSE refused for a stray byte |
| `BulkOnlyDevice.StaleSenseReported` | allwindisk/arm/masstorage.c:778-809 | A concrete command that is rejected, behind which REQUEST SENSE sends the host an older failure |
| `BulkOnlyDevice.StaleInformationReported` | allwindisk/arm/masstorage.c:820-861 | A concrete REQUEST SENSE that is refused, behind which the next one sends its code with the information of an older failure, as valid |
| `BulkOnlyDevice.SenseLifecycle` | allwindisk/arm/masstorage.c:696-721 | Status is FAIL exactly when a command without phase error left sense data, PASS when it left none; the next REQUEST SENSE sends the host just that, a second one NO SENSE; but for the two kinds of command that keep old sense data, the data is what the command leaves in a unit without any |
| `BulkOnlyDevice.MismatchKeepsSense` | allwindisk/arm/masstorage.c:778-809 | A command rejected for direction or length changes nothing, not even old sense data |
| `BulkOnlyDevice.ReadOnlyMountKept` | allwindisk/arm/masstorage.c:259-269 | A write on a read-only mount fails, leaves the disk alone, and the next REQUEST SENSE sends write protection to the host |
| `BulkOnlyDevice.EjectedMediumIsGone` | allwindisk/arm/masstorage.c:588-631 | Ejecting passes on an unlocked medium; from then on, over any run up to the next accepted mount, every command that needs the medium fails without touching the disk and sense data says why |
| `ScsiCommands.PassesByRule` | allwindisk/arm/masstorage.c:741-871 | A command passes the checks if and only if its block is long enough, its direction is the host's, no bit outside its mask is set, and the medium and attention conditions it needs hold; and it is a phase error if and only if length or direction do not suit |
| `ScsiCommands.SendersPass` | allwindisk/arm/masstorage.c:883-997 | INQUIRY, REQUEST SENSE and MODE SENSE pass exactly under conditions on the bytes of the wrapper, without a medium |
| `ScsiCommands.ControlsPass` | allwindisk/arm/masstorage.c:893-1079 | The same for MODE SELECT, PREVENT ALLOW, START STOP UNIT and unknown opcodes |
| `ScsiCommands.MediumCommandsPass` | allwindisk/arm/masstorage.c:970-1035 | The same for TEST UNIT READY, SYNCHRONIZE CACHE, VERIFY and the capacity commands, which need the medium |
| `ScsiCommands.TransfersPass` | allwindisk/arm/masstorage.c:940-1065 | The same for the six reads and writes, the number of bytes wrapping in the longest form |
| `ScsiCommands.PassedPhase` | allwindisk/arm/masstorage.c:765-776 | A command that passes is a phase error if and only if the host announces less than it asks for |
| `ScsiCommands.TransferPasses` | allwindisk/arm/masstorage.c:940-1065 | A read or write in the direction and length of its sectors passes if and only if the medium is there and no attention is pending |
| `ScsiCommands.TransferAddress` | allwindisk/arm/masstorage.c:218-227 | The sector number in the bytes of each form is the one that is used, and its flags pass if and only if only DPO and FUA are set |
| `ScsiCommands.ReadSectors` | allwindisk/arm/masstorage.c:211-254 | From the bytes of the command block, in all three forms: a read in the window, without driver failure, sends exactly its sectors, with status 0 and no residue |
| `ScsiCommands.WriteSectors` | allwindisk/arm/masstorage.c:259-311 | The same for writes on a read-write mount: exactly these sectors are replaced by the buffer |
| `ScsiCommands.WriteThenRead` | allwindisk/arm/masstorage.c:211-311 | What one command wrote, another, of any of the three sizes, reads back |
| `ScsiCommands.TransferRefused` | allwindisk/arm/masstorage.c:211-281 | A read or write fails as write protected, invalid field or out of range, by the first of these that holds, and touches nothing |
| `ScsiCommands.TransferBroken` | allwindisk/arm/masstorage.c:236-305 | A driver call that fails gives status 1, the sense data of a read or write error, and the sector number |
| `ScsiReplies.InquiryReplies` | allwindisk/arm/masstorage.c:401-426 | The 36 bytes of the reply, the residue of a shorter one, and nothing touched |
| `ScsiReplies.RequestSenseReplies` | allwindisk/arm/masstorage.c:428-479 | The 18 bytes of the reply from the sense data, which are cleared |
| `ScsiReplies.CapacityReplies` | allwindisk/arm/masstorage.c:481-499 | Last sector and sector size, most significant byte first, or an invalid field for an address without PMI |
| `ScsiReplies.FormatCapacitiesReply` | allwindisk/arm/masstorage.c:658-673 | The 12 bytes of the reply |
| `ScsiReplies.ModeSenseReplies` | allwindisk/arm/masstorage.c:501-586 | Write protection and the caching page in both sizes; saved values, other pages and stray bits fail, each with its code |
| `ScsiReplies.StartStopActs` | allwindisk/arm/masstorage.c:588-631 | Starting needs the medium, stopping an unlocked one, LoEj ejects it; anything else fails with its code |
| `ScsiReplies.PreventAllowActs` | allwindisk/arm/masstorage.c:633-656 | PREVENT sets the lock and ALLOW clears it |
| `ScsiReplies.TheOthers` | allwindisk/arm/masstorage.c:1016-1079 | TEST UNIT READY and SYNCHRONIZE CACHE succeed and do nothing; MODE SELECT and unknown commands fail |
| `ScsiReplies.VerifyReadsAll` | allwindisk/arm/masstorage.c:333-399 | VERIFY of a range in the window reads all of it, piece behind piece |
| `ScsiReplies.WhyItFails` | allwindisk/arm/masstorage.c:820-861 | A command that does not pass fails because the medium is missing if it would pass with one, and else for an invalid field |
| `MountedRuns.PowerUpAccessesGranted` | allwindisk/arm/masstorage.c:1091-1167 | Over whole runs from power-up, against the arguments of the mount requests: every access lies in the window of the last accepted mount, and every write on a mount that asked for writing |
| `MountedRuns.AccessesGranted` | allwindisk/arm/masstorage.c:1105-1167 | ... and from any state whose window was granted |
| `MountedRuns.MountThenWrite` | allwindisk/arm/masstorage.c:1149-1167 | Behind an accepted mount a write in the window changes exactly its sectors if the mount was read-write, and fails and changes nothing if it was not |
| `MountedRuns.MountThenRead` | allwindisk/arm/masstorage.c:1149-1167 | ... and a read sends exactly its sectors in either mode |
| `MountedRuns.WrapperUnderstood` | allwindisk/arm/masstorage.c:1105-1127 | The device finds tag, length, flags and command block where the Bulk-Only Transport standard puts them |
| `MountedRuns.OnlyWrappersAccepted` | allwindisk/arm/masstorage.c:1105-1127 | Only packets of 31 bytes that start with "USBC" are taken for commands |
| `MountedRuns.RunsAtOnce` | allwindisk/arm/masstorage.c:1105-1147 | A command without data from the host runs at once, on what its wrapper says |
| `CommandWrapper.CommandFields` | allwindisk/arm/masstorage.c:1105-1127 | Where the fields of a wrapper lie that is laid out as the standard has it |
| `MassStorage.Gadget.DoScsiCommand` | allwindisk/arm/masstorage.c:873-1089 | Medium, residue and phase error after a command are those of the value-level attempt |
| `MassStorage.Gadget.RxHandler` | allwindisk/arm/masstorage.c:1105-1147 | On a well-formed stream state and messages are those of the value-level machine; a rejected packet sends nothing and touches no medium |
| `MassStorage.Gadget.MountVolume` | allwindisk/arm/masstorage.c:1149-1167 | Succeeds exactly if no volume is open and the range passes the check; then the window is the range asked for, writable if and only if that was asked, and nothing else changes |
| `BootDiskDevice.HeaderRoundTrip` | allwindisk/usbcomm.c:93-98 | The device decodes from a command header what the host encoded |
| `BootDiskDevice.ResponseHeaderRoundTrip` | allwindisk/usbcomm.c:127-129 | The host decodes from a response header what the device encoded |
| `BootDiskDevice.HeaderLaidOut` | allwindisk/arm/include/bootdisk_interface.h:30-37 | The 24 bytes of a command header, field by field |
| `BootDiskDevice.ResponseLaidOut` | allwindisk/arm/include/bootdisk_interface.h:41-45 | The 8 bytes of a response header |
| `BootDiskDevice.Device.SendResponse` | allwindisk/arm/main.c:60-72 | A response is a header transfer and, if there is data, one data transfer |
| `BootDiskDevice.Device.RunDiskRead` | allwindisk/arm/main.c:138-158 | Answers OK with exactly the sectors asked for of the chosen area if the driver does not fail and they lie in the area, and FAIL if not |
| `BootDiskDevice.Device.RunDiskWrite` | allwindisk/arm/main.c:159-183 | Under the same condition stores the whole sectors of the data at the place asked for and nowhere else and answers OK; else stores nothing and answers FAIL |
| `BootDiskDevice.Device.Dispatch` | allwindisk/arm/main.c:95-229 | Every command but an unknown exit is answered by messages and exactly one final response, which is OK exactly under a condition on the command, the driver's answer and the mount; the effect on flash that its OK stands for; and what each command does to memory, log, exit and mount |
| `BootDiskDevice.Device.Collect` | allwindisk/arm/main.c:251-258 | A data packet is appended to what has been received, cut at the announced size |
| `BootDiskDevice.Device.RxHandler` | allwindisk/arm/main.c:231-266 | A command runs once, on all its data, when the last byte has come; a rejected packet has no effect on flash, board or pipe |
| `BootDiskHost.LockstepHead` | allwindisk/usbcomm.c:115-135 | The next transfers of a lockstep answer: one header, its data, and the rest, which is a lockstep answer again after a message |
| `BootDiskHost.Host.BulkOutData` | allwindisk/usbcomm.c:108-113 | However the data is cut into packets, the device answers the whole of it |
| `BootDiskHost.Host.Drain` | allwindisk/usbcomm.c:153-162 | The reading loops take exactly the current response's data, in order, whatever the sizes of single reads |
| `BootDiskHost.Host.PrintResponseData` | allwindisk/usbcomm.c:60-77 | Prints exactly the rest of the current response and leaves none of it |
| `BootDiskHost.Host.GetResponseData` | allwindisk/usbcomm.c:145-163 | Returns the whole response, or exits if and only if its size is not the expected one |
| `BootDiskHost.Host.ReadHeader` | allwindisk/usbcomm.c:116-132 | The header read is whole and tells status and size of the next response |
| `BootDiskHost.Host.AwaitFinal` | allwindisk/usbcomm.c:115-140 | The loop prints exactly the messages, in order, ends at the final response, and hangs only when there is none |
| `BootDiskHost.Host.SendCommand` | allwindisk/usbcomm.c:82-141 | From a drained pipe: the command is executed with all its data and succeeds exactly if it is accepted, only a reported failure exits, only a silent command hangs, and what remains in the pipe is the final response's data |
| `BootDiskHost.Host.ReadDisk` | allwindisk/usbcomm.c:165-171 | Succeeds if and only if the driver does not fail and the sectors lie in the area, and then returns exactly them, flash unchanged, pipe drained |
| `BootDiskHost.Host.WriteDisk` | allwindisk/usbcomm.c:173-178 | Succeeds under the same condition, and then stores exactly the data at the requested sectors, pipe drained |
| `BootDiskHost.ReadStaysInPartition` | allwindisk/allwindisk.c:40-48 | A read accepted by the check on offset plus count stays in the partition if and only if the sum does not wrap |
| `BootDiskHost.WrappingReadAccepted` | allwindisk/allwindisk.c:38-43 | A concrete offset and count, in kilobytes, that are accepted and leave the partition |
| `BootDiskHost.Host.CmdDiskRead` | allwindisk/allwindisk.c:22-82 | Yields exactly the requested sectors in order, refuses exactly when the check fails, and, if no driver call fails, succeeds exactly if the sectors lie in the area; a range in kilobytes doubles modulo 2^64 |
| `BootDiskHost.Host.ReadChunk` | allwindisk/allwindisk.c:125-134 | One read of the file, padded, is the next piece of the padded file |
| `BootDiskHost.Host.WriteChunk` | allwindisk/allwindisk.c:134-145 | One turn of the loop stores its piece behind the earlier ones, cut at the partition's end |
| `BootDiskHost.Host.WriteFile` | allwindisk/allwindisk.c:124-148 | The loop stores the padded file, cut at the partition's end, and nothing else |
| `BootDiskHost.Host.CmdDiskWrite` | allwindisk/allwindisk.c:84-159 | Byte by byte: the area holds the file from the offset to the partition's end, padded with 0xff to a sector, and is otherwise as before; refuses exactly an offset behind the partition, and fails only if a driver call does |
| `BootDiskHost.Host.Perform` | allwindisk/usbcomm.c:82-178 | Every host operation starts and ends with a drained pipe, and what it did to flash, memory, mount, log and exit, brought back and printed is what its arguments say; only disk operations and mounts can fail, exactly under conditions on the arguments and the driver's answer |
| `BootDiskHost.IsPerformed` | allwindisk/usbcomm.c:82-178 | The device's effects and responses amount to that, for every operation |
| `BootDiskHost.Host.PerformAll` | allwindisk/usbcomm.c:89-92 | In every sequence of host operations each one sent does to flash and board, brings back and prints what its arguments say, in order; neither the "unread data" nor the size-mismatch exit is taken; a failure ends the sequence, and a transfer fails exactly behind an operation that made the device leave |
| `BootDiskHost.Host.WriteThenRead` | allwindisk/allwindisk.c:22-159 | A file written and read back from the same offset, in any range inside the partition, comes back byte by byte, padded with 0xff to a sector; behind it, and in the other sectors and areas, everything is unchanged; both succeed if no driver call fails |
| `BootDiskHost.FileKept` | allwindisk/allwindisk.c:57-71 | A read inside the partition finds the bytes of the file, and behind it those from before |
| `BootDiskHost.StretchHoldsFile` | allwindisk/allwindisk.c:124-148 | Storing the padded file, cut at the partition's end, byte by byte |
| `UsbExchange.PacketsCarryData` | boot-axf/usb_device.c:715-790 | The packets of a transfer concatenate to its data |
| `UsbExchange.PacketsAreFull` | boot-axf/usb_device.c:735-754 | All packets but the last are full, and only a transfer without data has an empty one |
| `UsbExchange.NoStatus` | boot-axf/usb_device.c:847-1243 | A whole answer has at most one data phase and one status, and no status if and only if the command is unknown or a write that was given up |
| `UsbExchange.ResidueAddsUp` | boot-axf/usb_device.c:1098-1106 | After a command that succeeded, residue and moved bytes add up to the announced length if and only if the blocks of READ(10) and WRITE(10) do not exceed it and commands without data announce none |
| `UsbExchange.FailureResidue` | boot-axf/usb_device.c:1086-1094 | A failed read or write reports the whole announced length |
| `UsbExchange.TooShortWraps` | boot-axf/usb_device.c:1277-1280 | Two blocks announced as 512 bytes: the residue is 0xFFFFFE00 |
| `UsbExchange.WritesWhereItReads` | boot-axf/usb_device.c:1062-1078 | A write goes where a read of the same sector looks if and only if the sector number is below 2^23 |
| `UsbExchange.WriteToFarSectorHitsTheFirst` | boot-axf/usb_device.c:1062-1078 | A write to sector 2^23 of a partition goes to its sector 0 |
| `UsbCommands.WriteThenReadSector` | boot-axf/usb_device.c:992-1014 | What WRITE(10) received for a sector below 2^23, READ(10) of that sector and unit sends |
| `UsbCommands.Places` | boot-axf/usb_device.c:980-996 | With the sector number in the bytes of the command block, most significant first: where READ(10) reads, and where WRITE(10) writes |
| `UsbCommands.SomethingAsked` | boot-axf/usb_device.c:981-991 | Every command block asks for some sectors in this way |
| `UsbCommands.WrapperUnderstood` | boot-axf/usb_device.c:838-846 | The machine finds tag, length, unit and command block where the Bulk-Only Transport standard puts them |
| `UsbCommands.SignedExactly` | boot-axf/usb_device.c:842-846 | Exactly the wrappers that start with "USBC" are taken |
| `UsbCommands.StatusLaidOut` | boot-axf/usb_device.c:1303-1313 | Status wrappers are laid out as the standard has it |
| `UsbCommands.AnswersToCommands` | boot-axf/usb_device.c:847-1056 | The whole answer to each command but the transfers, by its opcode: status 0 alone, a reply of fixed size or the announced length, or nothing |
| `UsbCommands.AnswersToTransfers` | boot-axf/usb_device.c:980-1123 | The whole answer to READ(10) and WRITE(10): how much data, and status and residue of success and failure |
| `UsbCommands.WriteStored` | boot-axf/usb_device.c:1246-1280 | A write with status 0 has put what was received at its place and nothing elsewhere; one with another status has changed nothing |
| `UsbCommands.ReadSends` | boot-axf/usb_device.c:992-1014 | A read that sends data sends the sectors asked for |
| `UsbEndpoint.UsbDevice.UsbTransfer` | boot-axf/usb_device.c:715-790 | Under any status bits: while a transfer is under way, what is pushed and what is left make up its packets; 1 is returned if and only if all are pushed and the last one is out |
| `UsbEndpoint.UsbDevice.TransferAll` | boot-axf/usb_device.c:715-790 | Calls repeated until 1 push exactly the packets of the data; if the endpoint is never busy, one call for each byte and two more are enough |
| `UsbEndpoint.UsbDevice.UsbRead` | boot-axf/usb_device.c:603-713 | Exactly when 1 and when 2 is returned; at 1 the buffer of the transfer holds the last bytes that the FIFO delivered, in order and from the transfer's first one on; a transfer under way is continued whatever buffer is asked for |
| `UsbEndpoint.UsbDevice.ReceiveAll` | boot-axf/usb_device.c:603-713 | Calls repeated until 1 put exactly the next bytes of the FIFO into the buffer, and take no more; if a packet is always ready, one call for each byte and two more are enough |
| `UsbEndpoint.UsbDevice.SendData` | boot-axf/usb_device.c:906-951 | The data phase of the current command starts with the given bytes |
| `UsbEndpoint.UsbDevice.SendCsw` | boot-axf/usb_device.c:1303-1321 | The status keeps the command's tag, although it is built over the command, and completes the answer |
| `UsbEndpoint.UsbDevice.ContinueData` | boot-axf/usb_device.c:1301-1326 | The status, with what the data left of the announced length, starts if and only if the last packet of the data is out; the next packet is pushed whenever the hardware is not busy |
| `UsbEndpoint.UsbDevice.ContinueStatus` | boot-axf/usb_device.c:1327-1347 | The machine waits for the next command if and only if the status is out, and then everything started has been pushed |
| `UsbEndpoint.UsbDevice.ContinueRead` | boot-axf/usb_device.c:1245-1300 | The status starts exactly with the last byte from the host, and the bytes received are those of the FIFO; the write fails exactly if the driver does or beyond the disk, and is else stored at the sector in the command block; it is given up exactly at a call too many without a packet |
| `UsbEndpoint.UsbDevice.DiskWrite` | boot-axf/usb_device.c:1249-1279 | Fails exactly if the driver does or beyond the disk; else the disk takes exactly the bytes received, at the sector in the command block |
| `UsbEndpoint.UsbDevice.WriteOut` | boot-axf/usb_device.c:1248-1293 | ... and the status tells how it ended, and the exchange holds what was received |
| `UsbEndpoint.UsbDevice.AwaitCommand` | boot-axf/usb_device.c:818-846 | A command is taken up only after an interrupt, whole and signed, as the FIFO delivers it, and always if it comes at once, and a READ(10) then sends its sectors; if a write that was given up occupies the endpoint it is that write again |
| `UsbEndpoint.UsbDevice.RunCommand` | boot-axf/usb_device.c:847-1123 | By opcode: which commands start a status and which send which reply, the capacities byte by byte; that READ(10) sends its sectors; and that nothing is done if and only if the command is unknown |
| `UsbEndpoint.UsbDevice.RunRead` | boot-axf/usb_device.c:980-1028 | READ(10) of the sectors in its command block fails exactly if the driver does or beyond the disk, and else sends what is on the disk there |
| `UsbEndpoint.UsbDevice.RunWrite` | boot-axf/usb_device.c:1057-1123 | WRITE(10) is answered, waits for data or is given up, exactly as its first read ends |
| `UsbEndpoint.UsbDevice.BulkXfer` | boot-axf/usb_device.c:792-1351 | The invariant holds after every call; when the machine moves on from each state; and from an orderly state the receive endpoint is left occupied by a write given up if and only if a write is under way, data is missing, no packet is ready, and the calls without a packet reach their limit |
| `UsbEndpoint.UsbDevice.HostFallsSilent` | boot-axf/usb_device.c:675-700 | A host that falls silent in the middle of a write brings that about |
| `UsbEndpoint.UsbDevice.BusReset` | boot-axf/usb_device.c:1748-1762 | A reset gives up the transfers and restores order from any state |
| `UsbEndpoint.UsbDevice.Handle` | boot-axf/usb_device.c:553-561 | Interrupts, resets and turns of the main loop keep the invariant; what each does to the state of the machine |
| `UsbEndpoint.UsbDevice.Run` | boot-axf/usb_device.c:792-1351 | In every run of resets, receive interrupts and turns of the main loop, timeouts included: transmit and receive are never both in mid-transfer, everything sent is on the wire in order and in packets, and it is the whole answers to the commands taken up since the last reset; every read among them sent what the disk held then, and the disk is what the writes made of it |
| `FloatFormat.ValueBit` | arm-dis/floatformat.c:422-442 | Bit i of the number that the bytes denote is the bit the walk over the bytes looks at |
| `FloatFormat.FieldIsSlice` | arm-dis/floatformat.c:411-412 | A field is the number shifted right by its position, modulo 2^len |
| `FloatFormat.GetField` | arm-dis/floatformat.c:413-449 | Returns that slice of the number, in either byte order |
| `FloatFormat.PutField` | arm-dis/floatformat.c:562-596 | Replaces the field's bits by the value's and keeps every other bit |
| `FloatFormat.ByteReplaced` | arm-dis/floatformat.c:585-588 | The masked store of one byte, bit by bit |
| `FloatFormat.GetAfterPut` | arm-dis/floatformat.c:560-596 | Reading a field after writing it gives the value modulo 2^len |
| `FloatFormat.DisjointFieldKept` | arm-dis/floatformat.c:560-596 | Writing a field leaves every disjoint field as it was |
| `FloatFormat.MantBitsSet` | arm-dis/floatformat.c:389-409 | True exactly when the whole mantissa slice is nonzero, for any mantissa length |
| `FloatFormat.NormalBottom` | arm-dis/floatformat.c:318-327 | The exponents alone order a normal bottom half against half an ulp of the top, up to the boundary case |
| `FloatFormat.DenormalBottom` | arm-dis/floatformat.c:348-360 | The first set bit orders a denormal bottom half against half an ulp of the top, up to the boundary case |
| `FloatFormat.HighestMantissaBits` | arm-dis/floatformat.c:330-344 | The scan finds the highest set bit, and a second one exactly when there is more than one |
| `FloatFormat.IbmLongDoubleIsValid` | arm-dis/floatformat.c:287-371 | Accepts exactly: a top NaN; a top infinity, zero or denormal with a zero bottom; a normal top with the bottom below half an ulp, or at half an ulp with an even top mantissa |
| `DoubleRounding.ValidExactlyIfRounded` | arm-dis/floatformat.c:310-316 | The top half is the sum rounded to the nearest double, as the comment there demands, if and only if the pair is accepted and not of one family: a power of two and a bottom half of the other sign above a quarter ulp |
| `DoubleRounding.AcceptedWithoutRounding` | arm-dis/floatformat.c:317-370 | Every power of two of biased exponent 54 or more, with minus half an ulp as its bottom half, is accepted although the sum does not round to it |
| `DoubleRounding.Spacing` | arm-dis/floatformat.c:310-316 | How far apart doubles are above and below a given one |
| `SoftDivision.ShiftedComparison` | boot-axf/eabi_compat.c:7 | Comparing the shifted number with the divisor is comparing the number with the shifted divisor |
| `SoftDivision.UnsignedDivMod` | boot-axf/eabi_compat.c:2-14 | Quotient in the low word and remainder in the high word, for every divisor but 0; what comes out for 0 |
| `SoftDivision.SignedDiv` | boot-axf/eabi_compat.c:31-36 | Truncates towards zero, if the divisor is not 0, if and only if the operands are not the smallest integer and -1; what comes out otherwise |
| `SoftDivision.DivisionLaw` | boot-axf/eabi_compat.c:16-36 | Quotient and remainder add up to the dividend, and the remainder is smaller than the divisor and never of the other sign than the dividend |
| `SoftDivision.SignedDivMod` | boot-axf/eabi_compat.c:16-24 | The low word is the truncated quotient; the high word is the remainder if and only if the quotient is not negative or the remainder is all ones; what comes out for divisor 0 |
| `NumberText.PrintDigits` | boot-axf/wlibc.c:23-37 | The digits come out in reading order behind the sign, and the string is ended |
| `NumberText.IntToStringDec` | boot-axf/wlibc.c:6-38 | Prints the decimal text of a signed number; the smallest one as a bare sign |
| `NumberText.UintToStringDec` | boot-axf/wlibc.c:40-72 | Prints the decimal text of an unsigned number |
| `NumberText.IntToStringHex` | boot-axf/wlibc.c:74-98 | Prints eight hexadecimal digits behind the prefix, in the case of its letter |
| `NumberText.ParseParamVal` | boot-axf/script.c:101-184 | Classifies text, decimal and hexadecimal numbers and errors, and computes value and signs modulo 2^32 |
| `NumberText.NumberRead` | boot-axf/script.c:101-184 | Perhaps a minus, perhaps "0x", digits, and a sign or the end: the value in its base modulo 2^32, and both signs |
| `NumberText.OtherCharacterBehind` | boot-axf/script.c:136-180 | Any other character behind the digits makes the number invalid |
| `NumberText.TextRead` | boot-axf/script.c:121-135 | What does not start like a number is a text and counts in words |
| `NumberText.DecimalText` | boot-axf/wlibc.c:23-37 | Decimal prints have the digits of the number, and no zero in front |
| `NumberText.HexadecimalText` | boot-axf/wlibc.c:74-98 | Hexadecimal prints have its eight digits, in the case of their letter |
| `NumberText.UnsignedRoundTrip` | boot-axf/wlibc.c:40-72 | Every unsigned number printed in decimal is parsed back |
| `NumberText.SignedRoundTrip` | boot-axf/wlibc.c:6-38 | A signed number is parsed back from its print if and only if it is not the smallest one |
| `NumberText.HexRoundTrip` | boot-axf/wlibc.c:74-98 | Every number printed in hexadecimal is parsed back |
| `ScriptLines.GetScriptLine` | boot-axf/script.c:17-46 | The line ends at the first line feed behind its first character, or with the text; its kind; an error exactly beyond 512 characters; and 2 for a single character |
| `ScriptLines.CutLines` | boot-axf/script.c:210-320 | The outer loop ends and cuts the text exactly into its lines, or fails if and only if the text has no such lines |
| `ScriptLines.LinesAreUnique` | boot-axf/script.c:36-45 | These lines are the only way to write the text as lines of 2 to 512 characters that end at a line feed or the end |
| `ScriptLines.GetParam` | boot-axf/script.c:66-99 | Name and value without blanks, the name cut at 31 characters; an error for a value of 127 or more; a read behind the text exactly if the equals sign or the carriage return is missing from the rest of it |
| `ScriptLines.ParamOfLine` | boot-axf/script.c:66-99 | Name and value of a line that has both the equals sign and the carriage return |
| `ScriptLines.StripJoins` | boot-axf/script.c:71-79 | Dropping blanks keeps everything else in order |
| `BootScript.ParseSection` | boot-axf/script.c:210-320 | The main loop within a segment section: its outcome and the segment are those of parsing line by line |
| `BootScript.TextParsed` | boot-axf/script.c:210-320 | The text of well-formed remarks and parameters has the effect of the parameters one after the other, up to the first that cannot be parsed, and then the rest is parsed |
| `BootScript.SectionEnds` | boot-axf/script.c:210-240 | How a section ends: with the text, at the next section, with a failure at a line of more than 512 characters, or with a read behind the text |
| `BootScript.NumberLine` | boot-axf/script.c:242-268 | What a line "img_size" or "img_base" with a number says, character by character |
| `BootScript.BothOrders` | boot-axf/script.c:246-268 | Base address and size in closed form for both orders of the size and the base line, with any other lines around them |
| `BootScript.BaseIndependentOfOrder` | boot-axf/script.c:246-268 | Wherever memory ends, both orders give the same base address if and only if the signs in place at the base line agree, as they do for every address that is a number |
| `BootScript.BaseAddressOfText` | boot-axf/script.c:196-320 | From text to address and size: from the end of memory for a minus in front, less the size for one behind; remarks, blanks, other parameters and the order of the lines do not matter for an address that is a number |
| `BootScript.TextBaseDependsOnOrder` | boot-axf/script.c:254-268 | Two lines whose order matters because the address is no number |
| `Egon.RoundUp` | allwindisk/egon.c:10-15 | The smallest multiple of the unit that is not below the value |
| `Egon.SetBootImgChecksum` | allwindisk/egon.c:17-31 | Stores the sum of the little-endian words, taken with the seed in the checksum's place |
| `Egon.SignedIsGenuine` | allwindisk/egon.c:49-53 | The padded image carries its size and a checksum that matches, and is otherwise the image |
| `Egon.SecondPaddingDecides` | allwindisk/egon.c:49-55 | Both paddings stay in the area if and only if the second one does |
| `Egon.SizeCheckIsNotEnough` | allwindisk/egon.c:43-49 | An image that passes the size check and whose padding leaves the area |
| `Egon.Replicate` | allwindisk/egon.c:56-60 | The area becomes copies of the first replica, as many as fit, and 0xff |
| `Egon.CopiesAt` | allwindisk/egon.c:57-59 | Each part of the copies is the original |
| `Egon.EveryReplicaBoots` | allwindisk/egon.c:34-63 | At every replica's place the area holds the same genuine image |
| `Egon.AreaBytes` | allwindisk/egon.c:34-63 | The area byte by byte: image, padding, size, checksum as the sum of the words with the seed in its place, the period of the replicas, and 0xff behind |
| `Egon.SumIsRemainder` | allwindisk/egon.c:24-28 | The wrapping sum is the sum of the words modulo 2^32 |
| `Egon.Egon0Embed` | allwindisk/egon.c:34-63 | Refuses an image above the area; overruns it if and only if a padding does not fit; else the area written is that one |

## Left out

- RxHandler: both handlers keep a rejected header and go on with it; that the packet itself has no
  effect is stated, but runs are over well-formed streams. `MassStorage.Gadget.RxHandler` leaves out
  command block lengths above 16, for which `check_command` reads behind the command block, and
  `BootDiskDevice.Device.RxHandler` leaves out disk reads above 32 MB, which write behind the buffer,
  and memory reads of 2 GB and more, whose size is taken for negative and replaced by that of a string.
- Egon0Embed: what happens in memory once a padding has left the area, and the write of the area to
  flash.
- Hardware registers, clocks, delays, interrupts and inline assembly: status bits, FIFO contents
  and driver failures are arbitrary values instead. The packet sizes of the endpoints are not 0.
- The NAND drivers: an array of sectors that either does a request or fails. A failing request, or
  one beyond the area, changes nothing in the model, where real flash might be half written; that
  covers the page cache and its flush too.
- libusb, file I/O and process exit in the host tools: a reliable pipe in which a transfer may be
  cut into packets anywhere; `read` fills its buffer except at the end of the file. The transfers
  still in the pipe when a program exits are not modelled further.
- Unsupported logical units: there is one unit and it is number 0, so the branches for others are
  never taken. The unit is removable and no unit attention is ever raised by this code, but both
  are kept as parameters of the unit.
- The boot program's endpoint 0, descriptors, suspend and DMA.
- The boot program's production mode with its vendor command. The bytes that INQUIRY, MODE SENSE and
  REQUEST SENSE send there are parameters of the model, as constant in it as in the program. The
  capacity replies are stack arrays that outlive their call if a packet is shorter than they are; the
  model keeps them.
- The size of the boot program's data buffer: the code transfers up to 16 MB through a buffer that
  it allocates with `svc_alloc(131072)`; the model's buffer holds 16 MB. READ(10) of more than 16 MB
  also overwrites the memory behind it.
- `getParitionParams` and the partition table: partitions are parameters assumed to lie on the
  disk, whose sector numbers fit in 32 bits because the flash drivers take no more.
- Memory is a function from addresses to bytes, apart from the log, the buffers and the code that
  MEMEXEC runs; the text of the log is arbitrary. Ejecting through the USB disk while the boot-disk
  protocol runs is not modelled, so a mount lasts there.
- Signed negation in the division routines wraps, as the compiled code does.
- The section lines of the INI files, the sections other than segments, and the parsers' return value.
- `floatformat_to_double`, `floatformat_from_double` and the i387 validator.
- `fel.c`, the disassembler's opcode tables, displays, menus and the second copy of the boot
  program.
