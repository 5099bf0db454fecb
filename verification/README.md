# Lama-OS 2.0 drivers and loaders, verified in Dafny

This project models the parts of Lama-OS 2.0 that carry real state, loops and arithmetic, and proves what they do over
whole runs. `dafny verify dfyconfig.toml` checks everything.

| module | source | subject |
|---|---|---|
| `RtTypes` | src/drivers/common/rt_types.h, rt_drivers.h | error codes, driver states, 16- and 32-bit wrapping |
| `IoPort` | src/drivers/common/io_port.c | locked port input and output |
| `Mouse` | src/drivers/mouse/mouse_driver.c | the PS/2 driver, as a class and as a step function |
| `MouseStream`, `MouseMotion` | same | bytes to packets, packets to positions and callbacks |
| `MouseHandshake`, `MouseLedger`, `MouseLocks` | same | initialisation, acknowledgements, locked ports |
| `Loader` | src/boot.c | the kernel copy loop |
| `Usb` | src/drivers/usb/usb_driver.c | the device table |
| `Acpi` | src/drivers/acpi/acpi_driver.c | table discovery |
| `AcpiDiscovery` | same | what is found, loaded, refused and looked up, in the numbers of the layout |
| `AcpiImages` | same | memory images: what checksums notice, where entries are looked for, what goes wrong |
| `ElfScan` | src/exe.c | the recursive ELF search |

## How the model is built

Each driver is a class whose methods update its fields and arrays as the C functions do. Each method is proved equal to
one step of a pure function (`IoPort.Step`, `Mouse.Perform`, `Usb.Step`, `Loader.Turns`, `Acpi.Load`,
`Acpi.Initialize`, `ElfScan.Scan`), and the laws are proved about runs of those steps.
The laws write addresses, sizes, signatures, device answers and limits as numbers, so they fix the constants of the model
too: `AcpiDiscovery`, for one, describes discovery without any of the functions that `Acpi` uses to carry it out, but
for the byte sum.

The hardware is an arbitrary function from the complete bus history (and a port) to the value read, so every theorem
holds for every device, including one that behaves differently at every read. A driver call or an interrupt is one
atomic step; in between, any other code may lock, unlock, read or write any port.

Points that the repository leaves open, and how they are settled:

- `STATUS_OUTPUT_FULL` is not defined there: it is an arbitrary mask. `MAX_IO_PORTS` is 1024 as in rt_drivers.h.
- `SECTOR_SIZE` and `read_sector` are not defined: the sector size is any size whose double divides 2^32 (512 is one),
  and a read may fail or answer differently each time.
- `sample_rate` is not a field of `MouseData` in mouse_driver.h although mouse_driver.c:210 assigns it: it is a field of
  the driver here.
- Pointer and `size_t` arithmetic is 64-bit, as the repository's README.md says of the system.
- How many files a process may open is up to the system: the ELF search takes that number as a parameter. Every level of
  its recursion keeps a directory open, so it ends on every tree.
- Callbacks are recorded with the data they saw; they do not re-enter the driver.

## What the proofs found

- **Mouse reports without a negative coordinate are misread.** The handler accepts a header byte only if a sign bit is set
  (mouse_driver.c:150), so such a report loses its header, and its second or third byte may then be taken for the header
  of a packet that was never sent (`MouseMotion.LostHeaderReframes`). The driver decodes an encoded stream correctly if
  and only if every report has a negative coordinate (`MouseMotion.DriverRoundTrip`).
- **Initialisation leaves acknowledgements unread.** Against a device that acknowledges every byte, each successful
  `Mouse_Init` leaves two and each sample-rate change one more; a second `Mouse_Init` then always fails, and interrupts
  frame the leftovers as packets (`MouseLedger.BacklogAfterInit`, `MouseLedger.BacklogBecomesPackets`). Without
  interrupts the backlog never shrinks (`MouseLedger.OnlyInterruptsRepay`). Repeating the failed `Mouse_Init` can succeed,
  but on stale answers: the next `Mouse_Enable` then fails (`MouseLedger.RetriesFromIdle`).
- **The kernel loader counts every byte twice.** The loop ends if and only if the size is a multiple of two sectors, and
  then only half of the kernel has been copied (`Loader.TerminatesIff`, `Loader.EnteredMemory`, `Loader.CompleteIffEmpty`).
- **ACPI never becomes ready from its initial state**, because nothing sets the state that `ACPI_LoadTables` demands
  (`Acpi.NeverInitialized`). Whenever the lowest root pointer is of revision 2 and names a table signed "XSDT", discovery
  fails from every state (`AcpiDiscovery.XsdtIsRefused`).
- **ACPI entries are read from the wrong place**: from the address that the length field names instead of behind the
  header (`AcpiImages.EntriesAreWhereSpecifiedIff`), so a lookup can miss a valid table that the root table lists
  (`AcpiImages.SpecifiedTableIsMissed`).
- **ACPI discovery can leave its array of 7 tables**: exactly when the valid entries outnumber the free slots
  (`AcpiDiscovery.LoadOutcomes`), as on a concrete image (`AcpiImages.InitCanOverrun`). Behind the array the driver keeps
  acpi_2_0_supported and num_tables.
- **A changed byte of an ACPI table can pass the checksum** exactly if it is one of the length field's
  (`AcpiImages.OneByteChangesAreCaughtIff`). Any other changed byte of the root table makes discovery fail
  (`AcpiImages.CorruptRootFailsInit`), and any changed byte of the root pointer makes the scan pass it over
  (`AcpiImages.CorruptPointerIsNotFound`).
- **A path of full length makes the ELF search reopen the same directory**, level by level until no file can be opened,
  and it logs nothing there (`ElfScan.FullPathIsReopened`, `ElfScan.FullPathLogsNothing`).
- **The USB driver's port writes never reach the bus**: 0xCF8 and 0xCFC are not below 1024, so `AttachDevice` leaves the
  history unchanged. Devices attached at address 32 or above can never be found or detached (`Usb.CapacityIsLost`).

## Model

| member | source | states |
|---|---|---|
| IoPort.Ports.IsPortLocked | src/drivers/common/io_port.c:24-29 | an invalid port counts as locked, so the gate of every access is exactly "valid and free" |
| IoPort.Ports.LockPort | src/drivers/common/io_port.c:43-54 | the whole new state and the error code, as one `Lock` step |
| IoPort.Ports.UnlockPort | src/drivers/common/io_port.c:56-63 | likewise for `Unlock` |
| IoPort.Ports.ReadB | src/drivers/common/io_port.c:65-73 | 0 and no bus cycle when locked or invalid, else the device's answer and one logged cycle |
| IoPort.Ports.WriteB | src/drivers/common/io_port.c:75-81 | nothing when locked or invalid, else one logged cycle |
| IoPort.Ports.ReadW | src/drivers/common/io_port.c:83-91 | the 16-bit read under the same gate |
| IoPort.Ports.WriteW | src/drivers/common/io_port.c:93-99 | the 16-bit write under the same gate |
| IoPort.Ports.ReadL | src/drivers/common/io_port.c:101-109 | the 32-bit read under the same gate |
| IoPort.Ports.WriteL | src/drivers/common/io_port.c:111-117 | the 32-bit write under the same gate |
| IoPort.LockBitIsHeld | src/drivers/common/io_port.c:43-63 | after any run, the lock bit of a port says that some call locked it (or it began locked) and none has unlocked it since |
| IoPort.AccessExactlyWhenFree | src/drivers/common/io_port.c:24-117 | in any run, a call reaches the hardware iff it reads or writes a valid port that is not held, with one cycle naming that port and carrying its value; refused reads give 0; a lock is granted iff the port is not held |
| IoPort.ReadsAreTheDevice | src/drivers/common/io_port.c:65-109 | in any run, an 8-, 16- or 32-bit read of a free port below 1024 returns all bits of what the device answers after the cycles so far, and any other read 0 |
| IoPort.LockingReplies | src/drivers/common/io_port.c:43-63 | in any run, unlocking succeeds on every port below 1024, and locking reports an invalid, a held or a newly locked port |
| IoPort.NothingPassesALock | src/drivers/common/io_port.c:43-117 | between a granted lock and the next unlock of a port nothing reaches it and no second lock is granted |
| IoPort.LockDependsOnItsCallsOnly | src/drivers/common/io_port.c:43-63 | a port's lock depends only on the lock and unlock calls on that port, whatever the device and everything else did |
| IoPort.LockRepliesDependOnItsCallsOnly | src/drivers/common/io_port.c:43-63 | so do the replies to those calls |
| Mouse.FirstFull | src/drivers/mouse/mouse_driver.c:43-51 | the number of the first status read that reports output-full, or the limit if none of them does |
| Mouse.MouseDriver.WaitOutput | src/drivers/mouse/mouse_driver.c:43-51 | the counting loop stops at the first full status within 100000 reads, and fails after exactly 100000 otherwise, or at once without traffic when the port is locked |
| Mouse.MouseDriver.WaitAck | src/drivers/mouse/mouse_driver.c:54-61 | a wait, one data read, and success iff that byte is 0xFA |
| Mouse.MouseDriver.Init | src/drivers/mouse/mouse_driver.c:65-108 | the whole new driver and bus state and the code returned, as one `Init` step |
| Mouse.MouseDriver.Enable | src/drivers/mouse/mouse_driver.c:110-122 | likewise, READY to RUNNING |
| Mouse.MouseDriver.Disable | src/drivers/mouse/mouse_driver.c:124-136 | likewise, RUNNING to READY |
| Mouse.MouseDriver.SetSampleRate | src/drivers/mouse/mouse_driver.c:198-212 | likewise, in READY only |
| Mouse.MouseDriver.InterruptHandler | src/drivers/mouse/mouse_driver.c:138-162 | likewise, one byte into the packet buffer, or nothing unless RUNNING |
| Mouse.MouseDriver.Receive | src/drivers/mouse/mouse_driver.c:145-161 | what the handler does with a byte, as one step of the framer |
| Mouse.MouseDriver.ProcessPacket | src/drivers/mouse/mouse_driver.c:164-196 | the whole new state: position, buttons, callback, completion flag, with both guards |
| Mouse.MouseDriver.Decode | src/drivers/mouse/mouse_driver.c:169-188 | two 9-bit signed displacements, buttons, and 16-bit wrapped positions with y inverted |
| Mouse.Perform | src/drivers/mouse/mouse_driver.c:65-212 | every step of anyone keeps the packet index below 3 and leaves no packet unprocessed |
| Mouse.StepEffect | src/drivers/mouse/mouse_driver.c:65-212 | a step feeds one byte, or drops the pending bytes (successful Init), or changes only the lifecycle state and sample rate |
| MouseStream.ParseFrom | src/drivers/mouse/mouse_driver.c:145-161 | the reference parser accounts for every byte as packet, skipped or rest, and its rest is an unfinished packet |
| MouseStream.ParseResumes | src/drivers/mouse/mouse_driver.c:138-162 | parsing may stop anywhere and resume from the rest |
| MouseStream.FeedRefinesParse | src/drivers/mouse/mouse_driver.c:145-161 | one interrupt is one step of the reference parser on pending bytes plus the new byte |
| MouseStream.StreamRefinesBatch | src/drivers/mouse/mouse_driver.c:65-196 | over every run of calls, interrupts and foreign port traffic, the packets processed are those of the batch parser on the bytes read, and the pending bytes are its rest |
| MouseStream.BytesAreConserved | src/drivers/mouse/mouse_driver.c:103-162 | over every run, old index plus bytes read equals three times the packets plus bytes dropped plus the new index |
| MouseStream.TwoUnmarkedBytesSynchronise | src/drivers/mouse/mouse_driver.c:148-154 | after any input, two unmarked bytes in a row leave the framer at a packet boundary |
| MouseStream.OneUnmarkedByteSynchronises | src/drivers/mouse/mouse_driver.c:148-161 | one unmarked byte does so exactly when the framer is not one byte into a packet |
| MouseMotion.MarkedPacketMoves | src/drivers/mouse/mouse_driver.c:149-188 | a packet with an accepted header moves left or has a negative y, by 9-bit amounts |
| MouseMotion.MotionLaw | src/drivers/mouse/mouse_driver.c:164-196 | after any run the position is the start plus the sum of all displacements wrapped once, and a callback that is set was called exactly once a packet with the position reached by then |
| MouseMotion.NoWrapWithinBudget | src/drivers/mouse/mouse_driver.c:171-188 | while 256 units a packet fit in 16 bits no wrap has happened, and no coordinate moved further than that |
| MouseMotion.ResumesAtBoundary | src/drivers/mouse/mouse_driver.c:138-196 | a driver that just read two unmarked bytes processes exactly the packets of what it reads next |
| MouseMotion.DriversSynchronise | src/drivers/mouse/mouse_driver.c:138-196 | two drivers in any states that each just read such a pair and then read the same bytes process the same packets and keep their distance modulo 2^16 |
| MouseMotion.RoundTripIffAllNegative | src/drivers/mouse/mouse_driver.c:145-189 | decoding an encoded list of reports gives back exactly those reports iff every report has a negative coordinate |
| MouseMotion.LostHeaderReframes | src/drivers/mouse/mouse_driver.c:145-161 | a report with no negative coordinate loses its header; the first marked byte of the other two opens a packet mixed with later bytes, and without one exactly the three bytes are lost |
| MouseMotion.DriverRoundTrip | src/drivers/mouse/mouse_driver.c:138-196 | the same for the running driver, which ends at a packet boundary |
| MouseHandshake.ExchangeHappens | src/drivers/mouse/mouse_driver.c:43-61 | if the device can answer up to 100000 polls of port 0x64, of which the last one (be it the 100000th) is the first full one, and then the expected byte on 0x60, the driver holds exactly that exchange |
| MouseHandshake.WaitIsExchange | src/drivers/mouse/mouse_driver.c:43-61 | every wait keeps to "status reads, then a data read", and succeeds only by such an exchange |
| MouseHandshake.InitSucceedsIffHandshake | src/drivers/mouse/mouse_driver.c:65-108 | with free ports Init succeeds iff the device can hold the whole handshake, with the answers 0xFA, 0xAA, 0xFA; its traffic is always a beginning of one script; failure changes nothing in the driver |
| MouseHandshake.HandshakeHappens | src/drivers/mouse/mouse_driver.c:70-101 | and then the bus has seen exactly that handshake, byte for byte |
| MouseHandshake.CommandSucceedsIffAcknowledged | src/drivers/mouse/mouse_driver.c:110-136 | with free ports Enable, Disable and SetSampleRate (lines 198-212) succeed iff the device can answer the command's bytes with 0xFA in time; the bus then shows those bytes and that exchange; failure leaves the driver unchanged, and the wrong lifecycle state sends nothing |
| MouseHandshake.HandshakeIsUnique | src/drivers/mouse/mouse_driver.c:65-108 | a device can hold at most one such handshake at a time |
| MouseHandshake.InitIsBounded | src/drivers/mouse/mouse_driver.c:34-108 | no Init, with free ports or locked ones, costs more than 300008 bus cycles |
| MouseLedger.FifoNeedsMask | src/drivers/mouse/mouse_driver.c:46 | a device with an answer queue can show it iff the output-full mask has a bit set |
| MouseLedger.CommandStep | src/drivers/mouse/mouse_driver.c:110-136 | against such a device a command succeeds exactly when the lifecycle allows it, and only a rate change adds to the unread acknowledgements |
| MouseLedger.LedgerGrowsByRateChanges | src/drivers/mouse/mouse_driver.c:110-212 | over any interrupt-free run of commands the unread acknowledgements are the first ones plus one for each rate change |
| MouseLedger.CommandsNeverFault | src/drivers/mouse/mouse_driver.c:110-212 | and no command of such a run reports a hardware fault |
| MouseLedger.InitNeedsEmptyQueue | src/drivers/mouse/mouse_driver.c:65-108 | Init succeeds iff nothing is unread, and leaves two acknowledgements |
| MouseLedger.BacklogAfterInit | src/drivers/mouse/mouse_driver.c:65-212 | from an idle device: Init succeeds, the backlog is then always 2 plus the rate changes, and a second Init fails without changing the driver |
| MouseLedger.AccountIsExact | src/drivers/mouse/mouse_driver.c:65-212 | every run of Init, Enable, Disable, SetSampleRate and interrupts, failures included, agrees with a pure account in lifecycle state, unread answers, and every code or byte obtained |
| MouseLedger.InitSucceedsOnQueueIff | src/drivers/mouse/mouse_driver.c:65-108 | Init succeeds iff the unread answers are none or begin like those to a reset |
| MouseLedger.OnlyInterruptsRepay | src/drivers/mouse/mouse_driver.c:65-212 | no interrupt-free run of driver calls, failing ones included, lowers the number of unread answers |
| MouseLedger.FailedInitLeaves | src/drivers/mouse/mouse_driver.c:65-108 | Init on n owed acknowledgements, n > 0, fails and leaves n - 1 of them and a self-test answer |
| MouseLedger.RetriesFromIdle | src/drivers/mouse/mouse_driver.c:65-123 | on an idle device Init succeeds, fails, and succeeds again on stale answers, after which Enable fails |
| MouseLedger.BacklogBecomesPackets | src/drivers/mouse/mouse_driver.c:138-196 | k interrupts on that backlog yield k / 3 packets made of acknowledgements and leave k % 3 bytes pending |
| MouseLocks.NothingSucceedsWhileLocked | src/drivers/mouse/mouse_driver.c:43-212 | while port 0x60 or 0x64 stays locked, no call of any run succeeds and the lifecycle state stands still |
| MouseLocks.LockedBytesAreZero | src/drivers/common/io_port.c:65-68 | while 0x60 stays locked the handler reads one zero byte an interrupt and no Init succeeds |
| MouseLocks.LockEndsThePacket | src/drivers/mouse/mouse_driver.c:138-162 | while 0x60 stays locked at most one more packet completes, and after two interrupts the framer is at a boundary |
| MouseLocks.FrozenAtBoundary | src/drivers/mouse/mouse_driver.c:138-196 | from a boundary on, the position and the packets are then frozen whatever happens |
| Loader.Machine.CopySector | src/boot.c:49-52 | the inner loop stores the bytes of one sector, or as many as the counter allows, and moves counter and address by that many |
| Loader.Machine.LoadKernel | src/boot.c:36-59 | the outer loop, for any number of turns allowed, ends in the state of that many turns: loading, read error, or kernel entered |
| Loader.TurnReflectsMultiples | src/boot.c:41-53 | through the 32-bit wrap, a counter that one turn makes a multiple of two sectors was one before |
| Loader.OddSizeNeverEnters | src/boot.c:41-58 | for other sizes the counter is never a multiple of two sectors at any loop head, so the kernel is never entered |
| Loader.EvenSizeProgress | src/boot.c:38-53 | the exact loop head after n turns: counter, sector, address, and memory |
| Loader.TerminatesIff | src/boot.c:41-53 | without read errors the loop ends iff the size is a multiple of two sectors |
| Loader.EntersIff | src/boot.c:36-59 | under any pattern of read failures the kernel is entered iff the size is a multiple of two sectors and the first size / (2 * sector size) reads succeed |
| Loader.EnteredMemory | src/boot.c:38-58 | when it is entered, exactly those sectors were read and their bytes fill memory from 0x10000 to half the size, with nothing else written |
| Loader.CompleteIffEmpty | src/boot.c:48-58 | so an entered kernel is complete in memory iff its size is 0 |
| Usb.UsbDriver.FindDevice | src/drivers/usb/usb_driver.c:70-81 | exactly the first slot with the address, none for addresses of 32 and above |
| Usb.UsbDriver.Search | src/drivers/usb/usb_driver.c:75-79 | the search loop stops at the first match |
| Usb.UsbDriver.AttachDevice | src/drivers/usb/usb_driver.c:83-103 | the whole new table, the error when full, the callback, and that nothing reaches the bus |
| Usb.UsbDriver.DetachDevice | src/drivers/usb/usb_driver.c:105-125 | the first match is taken out and the rest shifted down, else an error; the callback |
| Usb.UsbDriver.CloseGap | src/drivers/usb/usb_driver.c:112-113 | the memmove takes out one slot and shifts the rest |
| Usb.StepRefines | src/drivers/usb/usb_driver.c:70-125 | attach enqueues, find shows the oldest survivor, detach dequeues it, and no other address notices |
| Usb.RunRefines | src/drivers/usb/usb_driver.c:70-125 | every run answers as a family of per-address queues that share 32 places |
| Usb.QueueLaw | src/drivers/usb/usb_driver.c:83-125 | after any run an address holds its first devices and all attached ones, without as many of the oldest as were detached |
| Usb.EntriesAreConserved | src/drivers/usb/usb_driver.c:70-125 | entries are initial plus attached minus detached; find succeeds iff that is positive; nothing at 32 or above is ever detached or found |
| Usb.DetachesCommute | src/drivers/usb/usb_driver.c:105-125 | detaches of different addresses commute, and neither changes the other's answer |
| Usb.OrderIsKept | src/drivers/usb/usb_driver.c:95-114 | the table is always a subsequence of the attach history |
| Usb.CapacityIsLost | src/drivers/usb/usb_driver.c:70-125 | unreachable entries never decrease, so with u of them at most 32 - u slots remain for all other addresses |
| Acpi.Accumulate | src/drivers/acpi/acpi_driver.c:62-66 | the 8-bit accumulator is the unbounded sum modulo 256 |
| Acpi.Lowest | src/drivers/acpi/acpi_driver.c:37-57 | the scan's result is the lowest passing candidate among 65536, or none |
| Acpi.AcpiDriver.CheckRsdp | src/drivers/acpi/acpi_driver.c:40-50 | signature and checksum of 36 bytes |
| Acpi.AcpiDriver.FindRsdp | src/drivers/acpi/acpi_driver.c:33-58 | true iff some candidate of the window passes, and then the lowest one is copied; otherwise nothing changes |
| Acpi.AcpiDriver.CheckTableChecksum | src/drivers/acpi/acpi_driver.c:61-67 | true iff the table's bytes, as many as its length says, sum to 0 modulo 256 |
| Acpi.AcpiDriver.LoadTables | src/drivers/acpi/acpi_driver.c:96-144 | the whole new state and outcome, on every memory: state guard, root signature and checksum, then the valid entries appended, up to a store past the array |
| Acpi.AcpiDriver.StoreEntries | src/drivers/acpi/acpi_driver.c:122-141 | the entry loop appends exactly the valid tables in entry order, as many as there are slots for; it leaves the array iff there are more |
| Acpi.AcpiDriver.Init | src/drivers/acpi/acpi_driver.c:71-94 | the whole new state and outcome, on every memory, including what failure leaves behind |
| Acpi.AcpiDriver.FindTable | src/drivers/acpi/acpi_driver.c:146-158 | the first stored table with the signature, only when READY |
| Acpi.StoredAtRank | src/drivers/acpi/acpi_driver.c:122-141 | old tables stay in front, and every valid entry (and nothing else) is stored in the slot given by how many valid entries precede it |
| Acpi.FirstIsFirst | src/drivers/acpi/acpi_driver.c:151-157 | a lookup returns the first match, and nothing iff there is none |
| Acpi.StoredSearch | src/drivers/acpi/acpi_driver.c:122-157 | looking up what is stored is looking up the older tables, and then the entries for one that is valid and matches |
| Acpi.LoadOverrunsIff | src/drivers/acpi/acpi_driver.c:122-143 | for an accepted root table, loading leaves the array of 7 iff stored tables plus valid entries are more than 7, and otherwise stores all of them |
| AcpiDiscovery.ScanFindsLowest | src/drivers/acpi/acpi_driver.c:33-58 | the scan finds the lowest multiple of 16 from 0xE0000 to 0x1DFFF0 with "RSD PTR " and 36 bytes that sum to 0 modulo 256, and nothing iff there is none |
| AcpiDiscovery.PointerIsRead | src/drivers/acpi/acpi_driver.c:81-110 | the driver is in 64-bit mode afterwards iff it was before, or the revision is at least 2 and the 8 bytes at offset 24 are not all 0; the root table is at the address in those 8 bytes, or else in the 4 bytes at offset 16 |
| AcpiDiscovery.CountFits | src/drivers/acpi/acpi_driver.c:121 | the entry count is the number of whole entries behind a header of 36 bytes; a length below 36 wraps to almost 2^32 entries |
| AcpiDiscovery.EntriesAreListed | src/drivers/acpi/acpi_driver.c:121-130 | the entries a load goes through are the 8- or 4-byte numbers from the address in the length field on, as many as that count |
| AcpiDiscovery.LoadOutcomes | src/drivers/acpi/acpi_driver.c:96-144 | which of the outcomes a load has, exactly: wrong state, root table not signed "RSDT" or not summing to 0 (both change nothing), more valid entries than the 7 slots have room for, success |
| AcpiDiscovery.LoadKeepsTables | src/drivers/acpi/acpi_driver.c:139 | a load keeps the stored tables in front and fills at most 7 slots |
| AcpiDiscovery.LoadStoresCount | src/drivers/acpi/acpi_driver.c:122-143 | a successful load adds as many tables as there are valid entries |
| AcpiDiscovery.LoadStores | src/drivers/acpi/acpi_driver.c:122-141 | it stores each valid entry in the slot given by how many valid ones precede it; so does a load that leaves the array, for the slots that exist |
| AcpiDiscovery.InitOutcomes | src/drivers/acpi/acpi_driver.c:71-144 | the same for Init, over the root table that the lowest pointer names |
| AcpiDiscovery.FailedInitKeeps | src/drivers/acpi/acpi_driver.c:71-94 | success means READY; an error leaves the state and the stored tables, and without a pointer everything, as it was |
| AcpiDiscovery.LookupAfterInit | src/drivers/acpi/acpi_driver.c:71-158 | after a successful Init a lookup returns the first table with the signature among those stored before, else the first entry of the lowest pointer's root table that is valid and carries it, else nothing |
| AcpiDiscovery.InitSucceedsIff | src/drivers/acpi/acpi_driver.c:71-144 | Init succeeds iff the state is INITIALIZING, a root pointer exists, the root table of the lowest one is good and its valid entries have room; it leaves the array iff all that holds but the room |
| AcpiDiscovery.XsdtIsRefused | src/drivers/acpi/acpi_driver.c:71-120 | whenever the lowest root pointer is of revision 2 or more and names a nonzero extended root table signed "XSDT", Init fails from every state and stores nothing |
| Acpi.NeverInitialized | src/drivers/acpi/acpi_driver.c:15-158 | from UNINITIALIZED no run of operations on any memories makes Init succeed, stores a table or lets a lookup find one |
| AcpiImages.OneByteChangeIsCaught | src/drivers/acpi/acpi_driver.c:61-67 | any change of one byte of an accepted table outside its length field makes it rejected |
| AcpiImages.LengthChangeCanPass | src/drivers/acpi/acpi_driver.c:61-67 | for each of the four length bytes, an accepted table and a change of that byte which leaves it accepted |
| AcpiImages.OneByteChangesAreCaughtIff | src/drivers/acpi/acpi_driver.c:61-67 | a one-byte change at an offset inside some accepted table can pass iff the offset is 4, 5, 6 or 7 |
| AcpiImages.CorruptRootIsRefused | src/drivers/acpi/acpi_driver.c:115-119 | after any one-byte change inside an accepted root table, outside its length field, loading it is a hardware fault that changes nothing |
| AcpiImages.CorruptRootFailsInit | src/drivers/acpi/acpi_driver.c:71-119 | the same for Init, when the lowest pointer is untouched |
| AcpiImages.CorruptPointerIsNotFound | src/drivers/acpi/acpi_driver.c:40-50 | a pointer with any one of its 36 bytes changed is not found |
| AcpiImages.ByteBehindPointerIsFree | src/drivers/acpi/acpi_driver.c:42-45 | the byte behind those 36 does not matter |
| AcpiImages.OtherSignatureIsNotFound | src/drivers/acpi/acpi_driver.c:40 | nothing is found where any of the 8 letters differs from "RSD PTR " |
| AcpiImages.WindowDecides | src/drivers/acpi/acpi_driver.c:37 | no byte outside 0xE0000 to 0x1E0013 matters for which pointer is lowest |
| AcpiImages.EntriesAreWhereSpecifiedIff | src/drivers/acpi/acpi_driver.c:114-130 | over all images with a good root table of a given length at a given address, the entries the code lists are those behind the header of 36 bytes iff there are none or that length is the address behind the header |
| AcpiImages.RootsExist | src/drivers/acpi/acpi_driver.c:114-119 | such images exist for every address and every length that covers the header |
| AcpiImages.InitCanOverrun | src/drivers/acpi/acpi_driver.c:122-139 | an image on which Init, in INITIALIZING, stores an empty table 8 times and so leaves the array |
| AcpiImages.SpecifiedTableIsMissed | src/drivers/acpi/acpi_driver.c:71-158 | an image on which Init succeeds and a lookup returns nothing, although the one specified entry of the good root table is a valid table with the signature |
| ElfScan.ReadName | src/exe.c:66 | appending "/" and a slash-free name appends one path component |
| ElfScan.ExtendedPathNamesEntryIff | src/exe.c:65-73 | a path built by snprintf names the entry iff it has fewer than 4096 characters; from a path of 4095 it names the same directory again |
| ElfScan.Monitor.AnalyzeElf64 | src/exe.c:23-56 | the log grows by the analysed path or by nothing, as `ElfScan.AnalysisLogsIff` says |
| ElfScan.Monitor.ScanDirectory | src/exe.c:58-78 | for every tree, path and number of files that may be opened, the log grows by exactly the scan of that path |
| ElfScan.Monitor.ScanEntry | src/exe.c:64-75 | one readdir entry of any tree, with "." and ".." left alone and long paths truncated |
| ElfScan.ResolveEntry | src/exe.c:66-74 | the path built for an entry opens exactly that entry |
| ElfScan.ScanIsListing | src/exe.c:58-78 | on a well-formed tree, with as many files to open as it is deep, the scan by path logs the listing of the tree |
| ElfScan.FullPathIsReopened | src/exe.c:69-74 | from a path of full length, scanning a subdirectory is scanning the same path again, one level deeper |
| ElfScan.FullPathLogsNothing | src/exe.c:58-78 | a scan from a path of full length ends and logs nothing, whatever the tree and the number of files that may be opened |
| ElfScan.ListedIsElf | src/exe.c:23-78 | everything listed is the path of a 64-bit ELF file below the directory |
| ElfScan.ElfIsListed | src/exe.c:23-78 | every such file is listed under its path |
| ElfScan.ListingInOrder | src/exe.c:58-78 | the listing is strictly in traversal order: where two paths part, the earlier readdir entry comes first |
| ElfScan.HeaderBytes | src/exe.c:28-35 | the header test accepts exactly files of at least 64 bytes that begin 7F 45 4C 46 02 |
| ElfScan.AnalysisLogsIff | src/exe.c:23-56 | a path is logged iff a file can be opened and it opens a readable regular one with those bytes |
| ElfScan.LoggedOpensElf | src/exe.c:23-78 | on every tree, well-formed or not, each path a scan logs opens a readable regular file of at least 64 bytes that begin 7F 45 4C 46 02 |
| ElfScan.ScanIsExact | src/exe.c:23-78 | the scan of a whole well-formed tree, with files enough, logs a readable regular file iff it has at least 64 bytes and begins 7F 45 4C 46 02 |
| ElfScan.ScanIsOrdered | src/exe.c:58-78 | that log is strictly in traversal order, so no file appears twice |

## Left out

- Loader.Machine.LoadKernel: takes the number of outer turns as a parameter, because the original loop need not end; the lemmas about it quantify over that number.
- ElfScan.Monitor.AnalyzeElf64: the log file is always written; its descriptor is not counted.
- Acpi.AcpiDriver.LoadTables: ends at the first store past the array of 7 (outcome `Overrun`), which the original does not check; what the overwritten fields make of the driver from there on is not modelled.
- Acpi.AcpiDriver.Init: the same.
- Acpi.AcpiDriver.FindTable: takes a signature of exactly the 4 characters that memcmp compares.
- Usb.UsbDriver.AttachDevice: takes the descriptor bytes as a parameter instead of copying them from a fixed address.
- Null driver and device pointers: a method's receiver is never null, so those early returns are not modelled.
- Interrupts that arrive inside a polling loop: calls and interrupts are atomic steps.
- Fields no modelled function touches: `z`, `mode`, driver name, priority and statistics.
- Mouse_WaitInput: static and never called.
- Port configuration (IO_InitPort, IO_GetPortConfig, IO_SetPortMode, IO_SetPortAccessType): it never touches the locks.
- Which neighbouring ports a 16- or 32-bit access covers: only the named port is logged.
- USB_SendData, USB_ReceiveData, USB_ResetPort, USB_Init: port writes and a state assignment.
- ACPI_SetPowerState, ACPI_SuspendCPU: a state guard and a halt instruction.
- src/drivers/network/network_driver.c: an append-only table, easier than the USB one.
- src/desktop.c, src/disk_io.c, src/fat32.c, src/fsinfo.c: a graphical shell and one-line wrappers of BIOS calls.
- find_file, the FAT directory and the rest of src/boot.c: `find_file` and DIR_ENTRY are not in the repository.
- Log formatting, timestamps, syslog, daemonising and signals in src/exe.c; failure to open the log file.
