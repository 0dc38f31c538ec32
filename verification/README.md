# MiniVisorPi in Dafny

A model of the parts of MiniVisorPi, an AArch64 hypervisor, that carry an algorithm or a
protocol, with proofs of what they promise. Code that updates state in place is modelled
by classes and methods with loops; each is tied to a function or relation on values, and the
theorems over all inputs, all runs and all interleavings are about those.

| files | what they model |
|---|---|
| `Alignment`, `FreeRanges`, `Links`, `AllocatorState`, `Allocator`, `AllocatorRuns`, `FreeOverlap` | the physical memory allocator: an address-sorted chain and twelve size-class lists threaded through one pool |
| `Arith`, `Stage2Descriptors`, `Stage2Walk`, `Stage2Map`, `Stage2Build`, `Stage2` | Stage 2 page tables, with the hardware walk of the Arm Architecture Reference Manual (DDI 0487, sections D8.2 and D8.3) as their meaning |
| `XhciRing`, `XhciRuns`, `XhciTransfer`, `XhciDriver` | xHCI transfer, command and event rings (section 4.9 of the xHCI specification) and the splitting of bulk transfers |
| `VgicLists`, `VgicDistributor`, `VgicDelivery`, `VgicMmio`, `VgicRaise`, `VgicRedeliver`, `VgicRegisters`, `VgicRefill`, `VgicRuns`, `VgicCode` | the virtual GIC (GICv2 architecture specification IHI 0048B, sections 4.3 and 5.3) |
| `Fat32Chain`, `Fat32Plan`, `Fat32Io` | FAT32 file reads and writes and the cache of the last chain position |
| `DevicetreeBlob`, `DevicetreeSearch` | the search of a flattened devicetree (Devicetree Specification, section 5.4) |
| `TicketLock`, `CpuOn` | the ticket lock, and handing a parked CPU to a guest (PSCI, DEN 0022, section 5.1) |
| `VcpuSwitch` | cooperative switching of virtual CPUs on one physical CPU |

`dafny verify dfyconfig.toml` checks everything.

## What the model fixes

- Allocator: addresses stay below the last word, so an end plus one is defined. A range to
  free is wholly free (then it is refused) or `Freeable`; `FreeExactly` proves that the code
  gets every other partly free range wrong, so callers must not free one. Freeing nothing is
  only defined while some memory is free: on an empty free space the code would make an entry
  that ends before it starts. A limit of 0 acts like a limit of 1 in the code, which
  `AllocateBelow` states.
- Stage 2: addresses are page-aligned and the size positive; the code checks only the alignment
  of the size. Output addresses and table pages lie below 2^50, what a descriptor can hold.
  Tables are sequences of 64-bit words named by their page number and take their pages from a
  list of distinct free pages, which is what the allocator's theorems give. A range mapped over
  an older block takes the rest of that block away, because the code replaces the block
  descriptor by an empty table; the contract says exactly which addresses that costs.
- xHCI: the driver starts a descriptor when the controller has read the last TRB of the previous
  one, as the completion event tells it; the controller may not have followed the link TRB yet.
  A ring is one segment, so the address in the link TRB is that of slot 0. A completion event
  comes only for a descriptor that was read, and a wave that times out counts as unread.
- Virtual GIC: one machine, any number of List Registers, interrupt numbers below 1020. The
  priority array has 255 registers, so a guest that makes an interrupt from 1020 on pending and
  enabled is outside the model. Written values have 32 bits, as the trap handler passes them for
  a 32-bit source register. Guests change the state of their List Registers, never the number,
  and make no inactive entry live.
- FAT32: sector numbers do not overflow 32 bits; a file's cluster chain ends, and its clusters
  are on the device. `faults` are the passes in which the device or the bounce buffer fails.
- Devicetree: bytes past the end of a block read as zero; searched names contain no NUL.
- CPU_ON: a CPU's affinity is its index. An event register may be set at any time by other events.
- The fields `serial`, `served`, `queue` of the lock, `wanted` and `claims` record history; no
  step depends on them.

## Model

| member | source | states |
|---|---|---|
| `MemoryAllocation.MemoryAllocator.IndexesAgree` | src/memory_allocator.rs:823-877 | in every valid state the chain holds exactly the enabled slots, address-sorted, disjoint and coalesced; a slot is on the free list of its own size class and on no other; lists ascend by size; the free size is the sum of the entry sizes |
| `MemoryAllocation.MemoryAllocator.CreateMemoryEntry` | src/memory_allocator.rs:51-63 | takes a free pool slot and clears it; fails exactly when every slot is in use, changing nothing |
| `MemoryAllocation.MemoryAllocator.SearchEntryContainingAddress` | src/memory_allocator.rs:77-96 | finds the entry that holds an address, or there is none |
| `MemoryAllocation.MemoryAllocator.SearchEntryPreviousAddress` | src/memory_allocator.rs:98-117 | finds the entry before an address on the chain |
| `MemoryAllocation.MemoryAllocator.UnchainEntryFromFreeList` | src/memory_allocator.rs:513-523 | takes an entry off its list; the other lists, and the links of entries elsewhere, are untouched |
| `MemoryAllocation.MemoryAllocator.ChainEntryToFreeList` | src/memory_allocator.rs:525-576 | files an entry under its new size, at its place in ascending order, taking it off its old list first; all lists are right again |
| `MemoryAllocation.SizeToPageOrder` | src/memory_allocator.rs:597-607 | the size class of a size |
| `AllocatorState.PageOrderSeparates` | src/memory_allocator.rs:597-607 | an entry of a smaller class than a request is too small for it, so skipping lower classes loses nothing |
| `Alignment.AlignedRange` | src/memory_allocator.rs:609-622 | aligning a range gives the smallest aligned range around it |
| `Alignment.AvailableSizeCorrect` | src/memory_allocator.rs:624-641 | the aligned remainder is big enough exactly when some aligned block of that size lies in the range, also where the subtraction wraps |
| `AllocatorState.PlaceInCorrect` | src/memory_allocator.rs:452-474 | the test made on one entry accepts exactly the entries that hold an aligned block below the limit, and picks the lowest such block |
| `MemoryAllocation.MemoryAllocator.DefineUsedMemory` | src/memory_allocator.rs:119-238 | takes exactly the aligned request, clipped to the free entry that holds its start, out of the free ranges; each error is returned exactly when its cause holds, and then nothing changes |
| `MemoryAllocation.MemoryAllocator.Delete` | src/memory_allocator.rs:166-187 | an entry used up disappears from chain, lists and pool; all other ranges stay |
| `MemoryAllocation.MemoryAllocator.Split` | src/memory_allocator.rs:216-234 | a block out of the middle leaves two entries; fails exactly when the pool is full, changing nothing |
| `MemoryAllocation.MemoryAllocator.AllocateWithAddressLimit` | src/memory_allocator.rs:428-484 | NoMemory exactly when no free range holds an aligned block of the size below the limit; otherwise exactly that block leaves the free ranges; without alignment and limit it comes from a smallest sufficient range |
| `MemoryAllocation.MemoryAllocator.Allocate` | src/memory_allocator.rs:408-417 | the same without a limit |
| `MemoryAllocation.MemoryAllocator.AllocateBelow` | src/memory_allocator.rs:419-426 | the same with the caller's limit; the block ends at or below the limit exactly when the limit is not 0 |
| `MemoryAllocation.MemoryAllocator.ReserveMemory` | src/memory_allocator.rs:486-493 | removes exactly the aligned range clipped to the entry that holds its start |
| `MemoryAllocation.MemoryAllocator.MergeBoth` | src/memory_allocator.rs:274-331 | a freed range between two entries makes one entry of the three |
| `MemoryAllocation.MemoryAllocator.DefineFreeMemory` | src/memory_allocator.rs:240-406 | adds exactly what is missing of the freed range, joined with its neighbours, for ranges clear of the free space and for the partly free ones the code cuts right; a range already free is refused; NoEntry exactly when the pool is full and no neighbour touches |
| `FreeOverlap.FreeExactly` | src/memory_allocator.rs:260-272 | of the ranges not refused, exactly those come out right: for every other partly free range the free size the code ends up with fits no free space with the range added |
| `FreeOverlap.SettledIsPutIn` | src/memory_allocator.rs:260-297 | the code starts again with a part of the range at most once |
| `FreeOverlap.RefusedIsFree` | src/memory_allocator.rs:257-259 | what is refused is exactly what is free already |
| `FreeOverlap.PartlyFree` | src/memory_allocator.rs:260-267 | a range that starts in the last byte of a free one: five bytes are missing and seven are counted |
| `MemoryAllocation.MemoryAllocator.Free` | src/memory_allocator.rs:495-511 | the same, also from an empty free space; the result keeps every index right |
| `FreeRanges.CarveCovers` | src/memory_allocator.rs:119-238 | taking a block out removes exactly its bytes from the set of free bytes |
| `FreeRanges.InsertCovers` | src/memory_allocator.rs:240-406 | freeing a range adds exactly its bytes to the set of free bytes |
| `FreeRanges.InsertCoalesced` | src/memory_allocator.rs:240-406 | a freed range is joined with every neighbour it touches |
| `FreeRanges.Canonical` | src/memory_allocator.rs:807-877 | coalesced range lists with the same bytes are equal, so the allocator's state is determined by the set of free bytes |
| `AllocatorRuns.FreeUndoesAllocate` | src/memory_allocator.rs:495-511 | freeing a block just allocated always succeeds, with a full pool too, and restores the exact sequence of free ranges and the free size |
| `AllocatorRuns.LiveAllocationsNeverOverlap` | src/memory_allocator.rs:784-795 | in every run of allocate, reserve, free and first donation, live blocks are pairwise disjoint and disjoint from free memory |
| `AllocatorRuns.Client.Allocate` | src/memory_allocator.rs:408-484 | an allocator call is a step of those runs |
| `AllocatorRuns.Client.Reserve` | src/memory_allocator.rs:486-493 | a reservation is a step of those runs |
| `AllocatorRuns.Client.Free` | src/memory_allocator.rs:495-511 | freeing a live block is a step of those runs; only a full pool can refuse it |
| `AllocatorRuns.Client.AllocateThenFree` | src/memory_allocator.rs:408-511 | the two calls one after the other: if the first succeeds so does the second, and ranges and free size are as before |
| `IntrusiveList.UnlinkDll` | src/memory_allocator.rs:720-735 | unlinking keeps a doubly linked list well linked and removes just that node |
| `IntrusiveList.LinkDll` | src/memory_allocator.rs:525-576 | linking between neighbours keeps a doubly linked list well linked and adds just that node |
| `Stage2Descriptors.WordValue` | src/paging.rs:67-69 | every number below 2^64 reads back from its word, which is what the conversion of an address to u64 needs |
| `Stage2Descriptors.LeafSurvives` | src/paging.rs:44-87 | the mask-and-or setters, one after the other on a zero word, leave a word out of which the hardware reads exactly the address, permission, type and kind set, for every address of at most 50 bits |
| `Stage2Descriptors.TableSurvives` | src/paging.rs:48-69 | a table descriptor word reads back as a table at its address |
| `Stage2Descriptors.AddressTooLarge` | src/paging.rs:27-28 | no word holds an address of more than 50 bits |
| `Stage2Walk.WalkFrame` | src/paging.rs:185-282 | a walk over the words depends only on tables the address can visit |
| `Stage2Walk.SameLeaf` | src/paging.rs:221-246 | all pages of a leaf's block are translated by that leaf |
| `Stage2Map.WriteLeaf` | src/paging.rs:204-246 | writing one leaf descriptor maps exactly its block, and every address read through another descriptor is unaffected |
| `Stage2Map.AddTable` | src/paging.rs:248-265 | a fresh empty table under a descriptor makes its block fault and leaves every address read through another descriptor alone |
| `Stage2Map.CutOverhangs` | src/paging.rs:185-282 | a leaf that covers pages inside and outside a range translates its first or its last page, and reaches beyond it there |
| `Stage2Map.OverhangCuts` | src/paging.rs:185-282 | and where the leaf of a page of the range reaches beyond it, there is such a page outside |
| `Stage2Build.Compose` | src/paging.rs:185-282 | what two parts of a request do adds up: linear over both, and another page is lost exactly if its old leaf covered part of either |
| `Stage2Build.Stage2Tables.AllocatePage` | src/paging.rs:251-253 | a fresh page, unless none is left |
| `Stage2Build.Stage2Tables.PutLeaf` | src/paging.rs:229-246 | one block or page descriptor maps its whole block and nothing else |
| `Stage2Build.Stage2Tables.MapPages` | src/paging.rs:199-220 | a level 3 table maps its part of the request page by page |
| `Stage2Build.Stage2Tables.EnsureTable` | src/paging.rs:248-265 | a table is there afterwards, or memory ran out; a translation changed only if its leaf was the block the table replaced, and then it faults |
| `Stage2Build.Stage2Tables.ThroughTable` | src/paging.rs:248-280 | the part of a request in one block goes through the table below, with the exact effect on all other pages |
| `Stage2Build.Stage2Tables.MapEntry` | src/paging.rs:221-280 | one descriptor's share of the request, by a block descriptor when size and both addresses allow, with the exact effect on all other pages |
| `Stage2Build.Stage2Tables.MapLevel` | src/paging.rs:185-282 | from any table down, the pages of the request go to consecutive frames with the permission and type asked for; any other page keeps its translation or, exactly if its old leaf covered part of the range, faults; failure only when no page is left, with a mapped prefix |
| `Stage2Paging.ConcatenationCovers` | src/paging.rs:90-96 | the concatenated first tables reach every input address and, when there are several, no further |
| `Stage2Paging.VtcrRoundTrip` | src/paging.rs:121-148 | mapping reads back from VTCR_EL2 the level and input size the table was created for, for every physical range code |
| `Stage2Paging.VtcrFields` | src/paging.rs:121-148 | VTCR_EL2 asks for input addresses as wide as the physical ones, 4 KiB pages and inner-shareable write-back walks, each field where the hardware looks for it |
| `Stage2Paging.StartLevel` | src/paging.rs:343-352 | SL0 counts the start level down from 2, and 3 stands for level 3 |
| `Stage2Paging.MapAddressStage2Internal` | src/paging.rs:330-376 | after success the walk of the packed words sends every byte of the range to base plus offset, readable exactly if asked (bit 0 of the access rights) and writable exactly if asked (bit 1), as device or normal write-back memory, and all other input addresses keep their translation if and only if the old leaves of the first and last byte do not reach beyond the range; addresses are lost only if their old leaf covered part of it, none if it was unmapped; a misaligned size changes nothing |
| `Stage2Paging.KeepsUnlessOverhang` | src/paging.rs:221-265 | that equivalence, from two walks of the old tables |
| `Stage2Paging.BlockIsLost` | src/paging.rs:248-265 | a 1 GiB block over the first page: the second page is mapped before and gone once a table has taken the block's place |
| `Stage2Paging.EmptyTable` | src/paging.rs:163-166 | a newly created table translates nothing |
| `Stage2Paging.ViewOf` | src/vm.rs:463-485 | RAM and virtual CPU interface mapped one after the other do not disturb each other: each window has its own base, rights and memory type |
| `Stage2Paging.CreateTables` | src/vm.rs:463-485 | a new machine's walk equals translate_guest_physical_address on the RAM window, readable, writable and normal; it maps the virtual CPU interface readable, writable and as device memory; and it faults everywhere else |
| `XhciRing.CycleBitOnly` | src/drivers/xhci.rs:1939-1950 | setting, clearing and flipping the cycle bit touch no other bit of the word |
| `XhciRing.PushedPending` | src/drivers/xhci.rs:1927-1937 | pushing TRBs puts each in its slot with the cycle bit of its lap, over the wrap, and leaves the other slots alone |
| `XhciRing.NothingVisible` | src/drivers/xhci.rs:1697-1741 | until the first TRB is committed, a controller that had caught up sees nothing new |
| `XhciRing.DescriptorIsRead` | src/drivers/xhci.rs:1939-1950 | once committed, a controller at the enqueue position that follows cycle bits and the link TRB reads exactly the TRBs pushed, in order, and stops at the new enqueue position, for any descriptor of up to 63 TRBs |
| `XhciRing.FollowsLink` | src/drivers/xhci.rs:2384-2401 | on the driver's rings the type and toggle fields of the TRBs lead the controller from the last slot to the first, with its cycle state flipped, and nowhere else |
| `XhciRing.LaggingSees` | src/drivers/xhci.rs:1697-1741 | while a descriptor is built, a controller that still rests at the link TRB can pass it as long as the descriptor has fewer than 63 TRBs, and sees nothing else |
| `XhciRing.LaggingRead` | src/drivers/xhci.rs:1738-1741 | a controller that has read everything, at the enqueue position or still at the link TRB, reads the next descriptor if and only if it is past the link or the descriptor has fewer than 63 TRBs |
| `XhciRing.FullAfterFull` | src/drivers/xhci.rs:1785-1817 | two full descriptors from slot 0: the first is read; if the controller then rests at the link TRB, the second has made it unreadable for good |
| `XhciRing.DirectPush` | src/drivers/xhci.rs:1856-1877 | a command with its cycle bit already right is a descriptor built and committed at once |
| `XhciRuns.StepInv` | src/drivers/xhci.rs:1927-1950 | every step of driver and controller keeps the ring consistent, where the driver goes on as soon as the last data TRB has been read; a step loses a descriptor exactly if it commits 63 TRBs to a controller still at the link TRB |
| `XhciRuns.RingIsFifo` | src/drivers/xhci.rs:1683-1743 | over any run and any number of wraps the controller has read a prefix of the committed TRBs; it is stuck short of the end exactly in a lost state, and otherwise stops exactly at the enqueue position; while a descriptor is built it does no more than pass the link TRB |
| `XhciRuns.LostExactly` | src/drivers/xhci.rs:1785-1817 | a run gets into a lost state in no other way than by that commit, and cannot go on from it |
| `XhciDriver.TrbRing.AdvanceEnqueue` | src/drivers/xhci.rs:2406-2416 | the enqueue position moves on; at the link TRB it wraps, flips the link's cycle bit and the producer cycle state |
| `XhciDriver.TrbRing.PushTrbRaw` | src/drivers/xhci.rs:1927-1937 | one TRB is written and the position advanced |
| `XhciDriver.TrbRing.CommitFirstTrb` | src/drivers/xhci.rs:1939-1950 | the cycle bit of the first TRB is set right |
| `XhciDriver.TrbRing.QueueCommand` | src/drivers/xhci.rs:1856-1877 | the controller then reads exactly the command and stops, also from the link TRB |
| `XhciDriver.Controller.Consume` | src/drivers/xhci.rs:1738-1741 | a controller that reads on by cycle bits and follows link TRBs by type and toggle flag reads exactly what there is to read and comes to rest behind it, or stays where it is if it cannot get started |
| `XhciDriver.TrbRing.PushWave` | src/drivers/xhci.rs:1683-1737 | the TRBs of the wave are on the ring as one descriptor, readable exactly unless they are 63 and the controller is at the link TRB |
| `XhciDriver.TrbRing.SubmitBulkWave` | src/drivers/xhci.rs:1683-1743 | the controller has then read exactly the TRBs of the wave, unless it timed out; a wave of 63 TRBs always does on a controller still at the link TRB |
| `XhciDriver.TrbRing.SubmitBulkTransfer` | src/drivers/xhci.rs:1751-1825 | what the controller has read is exactly the TRBs of the waves sent, one after the other from the front of the buffer; a success has sent all of them or ended with a short one, and returns the bytes moved, each wave's length less the residue of its event, whose code is 1 or 13: the whole length when no wave was short; a failure is that of the next wave's event |
| `XhciTransfer.TransferCovers` | src/drivers/xhci.rs:1785-1817 | the TRBs of a whole transfer are Normal TRBs (type 1) that name the pieces of its buffer by bus address and length, each once and in order, with the short-packet flag exactly on inward transfers; exactly those that end a wave ask for an interrupt, and exactly the others are chained |
| `XhciDriver.TrbRing.ControlTransfer` | src/drivers/xhci.rs:1534-1634 | set-up, data and status TRBs form one descriptor; a failed bounce buffer leaves the set-up TRB uncommitted |
| `XhciDriver.ControlStages` | src/drivers/xhci.rs:1544-1634 | the set-up TRB carries the eight bytes of the packet as immediate data and the kind of data stage, the data TRB the buffer in the direction asked for, the status TRB the other direction; types 2, 3 and 4, and only the status TRB asks for an interrupt |
| `XhciDriver.AbandonedSetup` | src/drivers/xhci.rs:1558-1566 | after that failure the ring is not ready for another descriptor and the controller stays in front of the abandoned TRB |
| `XhciTransfer.PiecesPartition` | src/drivers/xhci.rs:1694-1741 | the TRBs of a buffer cover it exactly and in order |
| `XhciTransfer.PiecesAllowed` | src/drivers/xhci.rs:1697-1706 | each TRB is at most 64 KiB and does not cross a 64 KiB boundary |
| `XhciTransfer.WavePieces` | src/drivers/xhci.rs:1657-1676 | splitting a wave again gives the first pieces of the whole buffer, at most as many as were counted |
| `XhciTransfer.MaxWaveLength` | src/drivers/xhci.rs:1657-1676 | the loop computes the length of as many pieces as fit in one wave |
| `XhciTransfer.WaveIsLongest` | src/drivers/xhci.rs:1657-1676 | no other split into at most 63 pieces that the controller allows covers more |
| `XhciTransfer.WavesPartition` | src/drivers/xhci.rs:1785-1817 | the waves cover the buffer exactly and in order |
| `XhciTransfer.WavesFit` | src/drivers/xhci.rs:1651-1676 | each wave is non-empty and has at most 63 TRBs |
| `XhciTransfer.WaveTrbsDescribe` | src/drivers/xhci.rs:1697-1741 | TRB number i of a wave has type 1, the bus address and length of piece i, and in bits 17 to 21 of its status the packets of the wave not whole within its bytes so far, at most 31; only the last asks for an interrupt, all others are chained, and no other bit is set |
| `XhciTransfer.RemainderCounts` | src/drivers/xhci.rs:2282-2296 | the TD size field is 0 on the last TRB; before it, the packets it counts hold what is left, with less than two to spare |
| `XhciTransfer.RemainderField` | src/drivers/xhci.rs:2282-2296 | that field is 0 when the descriptor is done, and else its packets with the whole ones before make up the total rounded up, capped at 31 |
| `XhciTransfer.ControlFields` | src/drivers/xhci.rs:1707-1725 | the fourth word has type 1 in bits 10 to 15, chain, interrupt and short-packet flags in bits 4, 5 and 2, and no other bit |
| `XhciDriver.EventRing.PeekEvent` | src/drivers/xhci.rs:1900-1915 | an event is reported exactly when one is waiting, and it is the oldest |
| `XhciDriver.EventRing.AcknowledgeEvent` | src/drivers/xhci.rs:1917-1925 | the driver moves to the next event, over the wrap |
| `VgicLists.SoftwareEntry` | src/vgic_lr.rs:22-39 | every field of an entry without physical interrupt reads back, with EOI and without HW |
| `VgicLists.HardwareEntry` | src/vgic_lr.rs:22-39 | every field of an entry with physical interrupt reads back, with HW |
| `VgicLists.InjectPlaces` | src/vgic.rs:67-98 | an interrupt goes to the List Register it already has, else to the first free one; it is refused exactly when neither exists |
| `VgicLists.PlacedKeeps` | src/vgic.rs:67-98 | injection duplicates nothing, loses nothing, and holds exactly one more interrupt |
| `VgicLists.ListRegisters.AddVirtualInterrupt` | src/vgic.rs:67-98 | the two passes do this, and count an overflow exactly on refusal |
| `VgicCode.GicDistributorMmio.ChangePendingStatusOf` | src/mmio/gicv2.rs:228-239 | sets or clears one pending bit in the bank of a CPU or in the shared registers |
| `VgicCode.GicDistributorMmio.ChangeActiveStatus` | src/mmio/gicv2.rs:245-257 | the same for an active bit |
| `VgicCode.GicDistributorMmio.TriggerInterruptTo` | src/mmio/gicv2.rs:347-394 | every target that is enabled, with the distributor enabled, gets the interrupt: this CPU in a List Register if there is room, with the group and top five priority bits of its own registers, every other target by exactly one request with its own entry, in the order of the CPUs; nobody else gets anything; the answer is whether any target took it |
| `VgicRaise.TriggerExact` | src/mmio/gicv2.rs:347-394 | the same for raising as a function of the state |
| `VgicCode.GicDistributorMmio.Retriggering` | src/mmio/gicv2.rs:322-329 | a private interrupt goes to the writing CPU, a shared one to the owner |
| `VgicCode.GicDistributorMmio.InjectInterruptHandler` | src/mmio/gicv2.rs:397-423 | this CPU's requests leave the queue while they fit; all others stay in order; a List Register changes only for a request to this CPU, marked pending or filled with the request's own entry |
| `VgicCode.GicDistributorMmio.CollectCandidates` | src/mmio/gicv2.rs:291-306 | pending and enabled interrupts of the view but the timer, in priority order |
| `VgicCode.GicDistributorMmio.InjectPendingForCurrentCpu` | src/mmio/gicv2.rs:286-317 | with the distributor enabled every pending and enabled interrupt of the view but the timer has a List Register, or all are occupied and each one filled outranks it by priority byte and number; a register filled has the interrupt's own entry; disabled, nothing changes |
| `VgicCode.GicDistributorMmio.RetriggerWritten` | src/mmio/gicv2.rs:508-537 | interrupts made deliverable by a write are raised again |
| `VgicCode.GicDistributorMmio.WriteRegister` | src/mmio/gicv2.rs:500-592 | a guest write means what the architecture says of its offset and width: see `VgicRegisters.WriteMeans` |
| `VgicRegisters.WriteMeans` | src/mmio/gicv2.rs:500-592 | 32-bit writes at 0x080 to 0x3FC change the group, enable, pending or active bits of the 32 interrupts of their register as told, bit by bit, in the writer's private or the shared registers, and no others; 8- and 32-bit writes at 0x400 + id and, from interrupt 32 on, 0x800 + id set priorities and targets from that interrupt on; 0xC00, 0x000 and 0xF00 are configuration, control and software-generated interrupts; every other access changes nothing |
| `VgicRegisters.SgiWrite` | src/mmio/gicv2.rs:575-590 | the interrupt number in bits 0 to 3 is raised for exactly the CPUs that bits 16 to 25 choose: listed ones, the other three of the platform, or the writer |
| `VgicRedeliver.RetriggerBitsExact` | src/mmio/gicv2.rs:508-537 | after an ISENABLER or ISPENDR write exactly the interrupts told, pending and enabled are raised again: private ones, and shared ones if the writer is the owner, are pending in a List Register with their own entry, or all are occupied; otherwise the owner gets one request for each, ascending |
| `VgicCode.GicDistributorMmio.MaintenanceInterruptHandler` | src/vgic.rs:100-141 | ended interrupts are neither pending nor active any more in this CPU's view and no other bit has changed; then queue and pending interrupts refill the List Registers completely and in priority order |
| `VgicCode.EndAllClears` | src/vgic.rs:105-116 | exactly the ended List Registers are freed |
| `VgicCode.EndAllEnds` | src/vgic.rs:105-116 | an interrupt that ended is neither pending nor active any more, in this CPU's private or the shared registers; no other bit changes |
| `VgicDelivery.TriggerFromKeeps` | src/mmio/gicv2.rs:347-394 | raising an interrupt sets only its pending bit, in the chosen banks or the shared registers, appends requests for other CPUs only, and disturbs no List Register entry; who gets it is `VgicRaise.TriggerExact` |
| `VgicDelivery.DeliverKeeps` | src/mmio/gicv2.rs:397-423 | no request is lost, reordered or misrouted: one leaves the queue only for a List Register of its target, where it is pending |
| `VgicDelivery.DeliverComplete` | src/mmio/gicv2.rs:397-423 | a request for this CPU is left over only if all its List Registers are occupied |
| `VgicRefill.DeliverFills` | src/mmio/gicv2.rs:397-423 | a List Register changes only for a request to this CPU, with the request's own entry |
| `VgicDelivery.CandidatesAre` | src/mmio/gicv2.rs:291-309 | the candidate list holds exactly the pending and enabled interrupts of the view, sorted by priority and number |
| `VgicDelivery.ScanIsComplete` | src/mmio/gicv2.rs:286-317 | after the scan every candidate is in a List Register or none is free, and no interrupt left out outranks one newly placed |
| `VgicRefill.ScanExact` | src/mmio/gicv2.rs:286-317 | the scan by the registers' own fields: interrupts below 1020 for the owner and below 32 for others, not 27, pending and enabled |
| `VgicMmio.RegisterMeaning` | src/mmio/gicv2.rs:504-546 | interrupt by interrupt, a write to a group, enable, pending or active register means what the architecture says: interrupts of the register change as told, all others keep their bits |
| `VgicMmio.QuietRetrigger` | src/mmio/gicv2.rs:322-329 | raising an interrupt that is pending already changes no register |
| `VgicMmio.ByteWritten` | src/mmio/gicv2.rs:550-553 | after a byte-wide write the addressed byte is the low byte of the value, lower bytes are as before, and the rest of the value has been or-ed into the higher bytes |
| `VgicMmio.PriorityByteMeans` | src/mmio/gicv2.rs:546-557 | the same, interrupt by interrupt, for the priorities in the writer's view; all other priorities stay |
| `VgicMmio.TargetByteMeans` | src/mmio/gicv2.rs:558-573 | and for the target bytes |
| `VgicMmio.PriorityByteAlone` | src/mmio/gicv2.rs:550-553 | a byte-wide priority write changes only its own interrupt if and only if the bits of the value above its byte are set already where they land |
| `VgicMmio.ByteDoesNotSpill` | src/mmio/gicv2.rs:550-553 | as for every value of one byte |
| `VgicMmio.SpillingWrite` | src/exception.rs:419-428 | and not for the 32-bit value 0x1A0, which gives the neighbour priority 1 |
| `VgicMmio.WriteIsolated` | src/mmio/gicv2.rs:500-592 | a write other than of GICD_SGIR leaves every other CPU's private registers alone |
| `VgicMmio.SgiExact` | src/mmio/gicv2.rs:575-590 | a GICD_SGIR write sets one pending bit in the banks of exactly the selected CPUs |
| `VgicMmio.WritePending` | src/mmio/gicv2.rs:500-592 | a write loses a pending bit only through ICPENDR |
| `VgicRuns.StepInv` | src/vgic.rs:67-141 | every step of every CPU keeps the queue numbered and List Registers free of duplicates |
| `VgicRuns.NeverDuplicated` | src/vgic.rs:67-98 | in every reachable state no two occupied List Registers of a CPU hold the same interrupt |
| `VgicRuns.PendingCleared` | src/mmio/gicv2.rs:228-243 | a pending bit is cleared only by a guest's ICPENDR write or at the end of that very interrupt on its CPU |
| `VgicRuns.RequestFate` | src/mmio/gicv2.rs:376-423 | over all interleavings a queued request is still queued, in order, or was delivered to its own target |
| `VgicRuns.BankChangesOnlyBy` | src/mmio/gicv2.rs:155-201 | in any interleaving a step of one CPU changes nothing in another CPU's private registers but the pending bit of an SGI aimed at it or of a private interrupt raised for it as owner |
| `VgicRuns.BanksIsolated` | src/mmio/gicv2.rs:155-201 | over whole runs of register writes by one CPU other than GICD_SGIR no other CPU's private registers change |
| `Fat32Chain.FileInfo.WalkStart` | src/fat32.rs:59-68 | the start of a walk is a true position of the chain, not beyond the request |
| `Fat32Chain.FileInfo.UpdateWalkHint` | src/fat32.rs:72-74 | index and cluster read back from the packed hint |
| `Fat32Chain.FileInfo.WalkTo` | src/fat32.rs:380-389 | the hinted walk reaches the same cluster, or fails the same way, as a walk from the entry cluster, and the hint stays true |
| `Fat32Chain.NthAdd` | src/fat32.rs:190-204 | walking on from a cluster of the chain is walking on from the start |
| `Fat32Chain.ClusterAddressStep` | src/fat32.rs:178-182 | consecutive cluster numbers are consecutive on the device |
| `Fat32Chain.ClusterPlace` | src/fat32.rs:178-182 | cluster 2 starts exactly where the last file allocation table ends, and every cluster lies its number less 2 cluster sizes behind that |
| `Fat32Chain.ChainStep` | src/fat32.rs:190-204 | the walk follows the table: each cluster's entry is the next cluster, and an entry outside 2 to 0x0FFFFFF7 ends the chain |
| `Fat32Chain.ByteAddressRun` | src/fat32.rs:178-219 | the bytes of consecutive clusters follow one another on the device |
| `Fat32Io.FileInData` | src/fat32.rs:178-219 | every byte of a file lies in the data area, and its address gives back its cluster and the place in it |
| `Fat32Io.MeasurePass` | src/fat32.rs:391-427 | one pass takes the whole request when the run of consecutive clusters seems long enough for it, counted from the first sector taken, and else the whole run; it fails exactly at the end of the chain, or in a write that has less than a sector left |
| `Fat32Io.Volume.ReadPass` | src/fat32.rs:429-459 | one device read succeeds exactly when the device does and its sectors are on it, and puts exactly the bytes of its device addresses into memory, directly or through the bounce buffer |
| `Fat32Io.Volume.ReadPasses` | src/fat32.rs:391-462 | the passes fill memory with the bytes of the device addresses of the plan, and succeed exactly when there is a plan and no pass of it meets a fault |
| `Fat32Io.Volume.Read` | src/fat32.rs:353-463 | for every request, fragmented or not: success exactly when the plan exists and the device does not fail, each delivered byte from the device address the plan names, memory past the last sector untouched, the hint true; without faults it succeeds with every byte from its own place in the file, counted in clusters from the end of the file allocation tables, if and only if the clusters are consecutive, or the request starts in or right after the first sector of a cluster and ends with a cluster that another one follows which is not physically the next |
| `Fat32Plan.ServedExactly` | src/fat32.rs:353-561 | that equivalence for reads and writes |
| `Fat32Plan.WholePass` | src/fat32.rs:400-412 | a first pass that takes the whole request is right exactly if the request ends within the run it starts in |
| `Fat32Plan.TailMeans` | src/fat32.rs:391-462 | later passes, each measured against the whole length, add up to the request only if it ends at the end of a run, and then move the right bytes |
| `Fat32Plan.TailFills` | src/fat32.rs:391-462 | and a request that ends so is filled by them |
| `Fat32Io.ReadGives` | src/fat32.rs:429-459 | a right plan delivers the file's bytes |
| `Fat32Io.ConsecutiveOnePass` | src/fat32.rs:391-412 | consecutive requests take one pass, so that only a fault in the first matters |
| `Fat32Io.FragmentedRead` | src/fat32.rs:398-427 | a call of the read on a device of distinct bytes: it reports success and delivers a byte of a cluster the file does not have |
| `Fat32Io.Volume.WritePass` | src/fat32.rs:541-555 | one device write changes exactly its sectors, or nothing |
| `Fat32Io.Volume.Write` | src/fat32.rs:465-561 | for every request: success exactly when the plan exists and the device does not fail, and memory has then been written to the device addresses of the plan and nowhere else; without faults those are exactly the file's own bytes if and only if the request is one a read serves right, is made of whole sectors and does not start on the second sector of a cluster; a failed write of consecutive clusters changes nothing; no write, failed or not, changes a byte of the reserved sectors or the file allocation tables |
| `Fat32Io.WriteGives` | src/fat32.rs:541-555 | a right plan changes exactly the bytes of the request, since no two bytes of a file share an address |
| `Fat32Io.Volume.WriteThenRead` | src/fat32.rs:353-561 | reading back every request that is written right returns what was written |
| `DevicetreeBlob.MatchesUpToAt` | src/dtb.rs:107-141 | a name without unit address matches exactly the node names equal to it up to the '@' |
| `DevicetreeBlob.FirstMatchIsFirst` | src/dtb.rs:284-309 | the result meant is the first match in preorder, and None means there is none |
| `DevicetreeBlob.WordRoundTrip` | src/dtb.rs:259-264 | big-endian words read back |
| `DevicetreeBlob.DeclaredIsLast` | src/dtb.rs:211-224 | the last property named #address-cells sets the address count of the subnodes and the last one named #size-cells the size count; without one the count is inherited |
| `DevicetreeSearch.SkipNop` | src/dtb.rs:169-174 | stops at the first token that is not NOP |
| `DevicetreeSearch.CompareString` | src/dtb.rs:107-141 | decides the match and moves past name, NUL and padding in every case |
| `DevicetreeSearch.CompareNameSegment` | src/dtb.rs:80-105 | true exactly when the string at the offset is the name; an error exactly when the offset is outside the block |
| `DevicetreeSearch.CheckAddressAndSizeCells` | src/dtb.rs:211-224 | takes over exactly the declared cell count |
| `DevicetreeSearch.AfterNops` | src/dtb.rs:169-174 | NOP tokens change nothing of what the items after them mean |
| `DevicetreeSearch.SearchFrom` | src/dtb.rs:226-244 | from a node of a well-formed tree: the first match in preorder with its cell counts; without one the cursor ends just after the node's END_NODE |
| `DevicetreeSearch.SearchItems` | src/dtb.rs:245-281 | the same for the items of a node, properties before subnodes, over any NOPs |
| `DevicetreeSearch.SearchNode` | src/dtb.rs:284-309 | on every well-formed block the first node in preorder whose name matches, with the cell counts of the nearest enclosing declaration, default 2 and 1; None when there is none; on every input it ends |
| `TicketLock.Mutex.DrawTicket` | src/lock.rs:51-55 | the fetch-and-add is the draw step of the lock's runs: the caller waits with the ticket returned, last in line |
| `TicketLock.Mutex.IsServed` | src/lock.rs:59-61 | the spin loop ends exactly for the first in line, which is the enter step; nobody else then holds the lock |
| `TicketLock.Mutex.Release` | src/lock.rs:94-101 | dropping the guard is the leave step; nobody holds the lock then |
| `TicketLock.StepInv` | src/lock.rs:51-101 | outstanding tickets are distinct and fill the window from the one served to the next one drawn |
| `TicketLock.ServedIsFirst` | src/lock.rs:51-72 | a ticket is the one served exactly if its owner is first in line, and then nobody else holds the lock |
| `TicketLock.MutualExclusion` | src/lock.rs:51-72 | at most one participant holds the lock in every run with fewer than 2^32 participants |
| `TicketLock.ServedInOrder` | src/lock.rs:94-101 | who stands at distance d stands at distance d - r after r releases; only the one at distance 0 enters |
| `TicketLock.WaitsExactly` | src/lock.rs:51-61 | a waiter's ticket is the one served exactly when its distance is 0 |
| `CpuOn.ParkedCpus.Claim` | src/main.rs:1220-1236 | takes the first mailbox of the target off the list and keeps the order of the rest; nothing changes when there is none |
| `CpuOn.StepInv` | src/main.rs:1107-1123 | every step of callers and parking CPUs keeps the hand-off consistent |
| `CpuOn.ClaimedOnce` | src/main.rs:1220-1236 | each parking is claimed at most once |
| `CpuOn.OneSuccess` | src/main.rs:1217-1244 | of racing CPU_ONs for one target one succeeds: another success needs the target to have parked again |
| `CpuOn.AlreadyOn` | src/main.rs:1222-1232 | in every run a CPU_ON fails exactly when its target has no unclaimed parking, and then changes nothing |
| `CpuOn.NeverOverwritten` | src/main.rs:1238-1242 | a request is posted only into an empty mailbox its CPU still waits at |
| `CpuOn.RightRequest` | src/main.rs:1116-1121 | a CPU starts with the request of the caller that claimed it |
| `CpuOn.NeverLost` | src/main.rs:1116-1123 | a waiting CPU is on the list, has its request, or has a claimer about to post it; asleep in front of a request it has an event latched or still to come |
| `CpuOn.RequestFate` | src/main.rs:1217-1244 | a request accepted is with its caller, in the mailbox, or was taken by the check with which the target started to run it |
| `CpuOn.CallFate` | src/main.rs:1217-1244 | from the call: the request a CPU_ON passes is in every later state with its caller, in a mailbox of its target, or was taken by the check with which the target itself started to run it |
| `CpuOn.RunsWhatWasAsked` | src/main.rs:1107-1244 | a CPU runs only what an earlier successful CPU_ON for this very CPU asked it to run |
| `VcpuSwitch.PhysicalCpu.SaveContext` | src/vm.rs:298-308 | the context saved is exactly what the hardware holds |
| `VcpuSwitch.PhysicalCpu.RestoreContext` | src/vm.rs:314-322 | the hardware then holds exactly the saved context |
| `VcpuSwitch.PhysicalCpu.FindNextSameAffinityVcpu` | src/vm.rs:773-785 | the next machine of this CPU in creation order, round the end; None when there is no other |
| `VcpuSwitch.PhysicalCpu.TryYieldToNextVcpu` | src/vm.rs:883-911 | one yield, with the return address advanced before saving |
| `VcpuSwitch.StepSound` | src/vm.rs:631-642 | every step keeps the running machine, its table and VMID consistent |
| `VcpuSwitch.LiveTable` | src/vm.rs:883-911 | the live Stage 2 table always belongs to the machine TPIDR_EL2 names |
| `VcpuSwitch.ResumesExactly` | src/vm.rs:883-911 | a resumed machine finds exactly the registers, List Registers and EL1 state it had when it yielded, with its return address 4 bytes on |
| `VcpuSwitch.NextDiffers` | src/vm.rs:773-785 | a switch always goes to another machine |
| `VcpuSwitch.RoundRobin` | src/vm.rs:773-785 | after y yields the running machine is y places on in the round |
| `VcpuSwitch.EachRunsOnce` | src/vm.rs:773-785 | n machines each run once in any n consecutive yields |

## Left out

- MemoryAllocation.MemoryAllocator.DefineFreeMemory: a partly free range outside `Freeable` is not run through the entries; `FreeOverlap.FreeExactly` shows that the code leaves no consistent state then, so there is none to promise.
- MemoryAllocation.MemoryAllocator.Free: the same, and size 0 with nothing free, where the code makes an inverted entry.
- Fat32Io.Volume.Write: which bytes of the data area a failed write of more than one pass has changed.
- XhciDriver.TrbRing.SubmitBulkTransfer: the bounce buffer of a bulk transfer and its copying; the buffer address is the one the controller sees.
- XhciRing.FollowsLink: the address words of the link TRB, which the constructor sets to the segment itself, are not followed.
- Stage2Build.Stage2Tables.MapLevel: the pages of two machines' tables are kept apart by giving each its own object; TLB maintenance is not modelled.
- XhciDriver.TrbRing.ControlTransfer: time-outs, cache maintenance and the copying of bounce buffers.
- VgicRuns.BanksIsolated: register reads, which change nothing.
- VcpuSwitch.LiveTable: the packing of table address and VMID into VTTBR_EL2, and the wrap of the 8-bit VMID.
- DevicetreeSearch.SearchNode: searches that resume after a node, by compatible string, and the decoding of `reg` and `ranges`.
- CpuOn.StepInv: what a CPU does between taking its request and entering the guest.
- Memory ordering: atomic operations and locked sections are single steps.
- The retirement of a virtual CPU on CPU_OFF when another machine is queued on the same CPU; re-parking is modelled.
- Device drivers other than the rings (SD host, Ethernet, PCIe, UART, virtio), the physical GIC driver, mass storage and block dispatch.
- The virtio, UART and console devices shown to guests.
- Reading the FAT32 boot sector, directories and file names; the ELF loader; boot sequence, console commands and printing.
