# Verified model of the BCM2711 PCIe stack

A Dafny model of the PCIe library's interrupt-vector core, bus enumeration, BAR
allocator, address translation, region building, capability walks and INTx
routing, with proofs of what they promise.

Code that changes state step by step is modelled by classes with the source's
fields (`IrqDriver`, `ProbeDriver`, `BarSetup`, `BusSetup`, `Regions`, `Intx`,
`MsixTable`). Their methods are proved to compute functions on values (`SlotPool`,
`Vectors`, `BarAlloc`, `BarTree`, `Enumeration`, `Translate`), and the theorems are
about those, over every input and every run:

- `Words`: 32-bit words, the C bit operators bit by bit, words as sets and as numbers.
- `SlotPool`, `Vectors`: the 32 demux slots; allocate, attach, detach, mask, free on
  one controller and one device.
- `VectorRuns`, `VectorTheorems`: any number of devices, any sequence of calls,
  messages and interrupts; the invariant and what follows from it.
- `Demux`: bind, unbind and the demux ISR one register access at a time, with
  messages arriving in between.
- `IrqDriver`: the same operations on bitmaps, tables and register words.
- `Enumeration`, `ProbeDriver`: a finite tree of buses, routing of configuration
  cycles by the bridges' current registers, preorder numbering, and the scan that
  produces it while using that routing.
- `DemuxRefinement`: every run of the call-level model as a run of the step machine.
- `BarAlloc`, `BarPlan`, `BarTree`: wrapping align-and-bump allocation, bridge
  registers, the allocator without word sizes it refines, and what a whole tree of
  bridges makes of one region.
- `BarSetup`, `BusSetup`, `BarCache`, `MsixTable`: placing the BARs and ROM of one
  function and of a tree of functions, what is cached of them, the MSI-X table's place
  in its BAR.
- `Translate`, `Regions`, `Capability`, `Intx`: the smaller loops.

## Where the code and its promises part

- `pci_irq_vec_unmask` asks for no server, so "unmasked only while bound"
  (`pcie/include/pci_types.h:155`) holds for exactly the runs that unmask only
  vectors with one (`VectorTheorems.MaskDiscipline`, `UnguardedUnmask`).
- `LibCheckSetINTxMask` writes the INTx disable bit in every mode, so "INTx off in a
  message mode" holds for exactly the runs that do not unmask the line of such a
  device (`VectorTheorems.IntxDiscipline`).
- `brcm_msi_slot_bind` stores the server before it clears the latch, and the status
  is not filtered by masks: a call is fresh if and only if the bind has got past its
  store (`Demux.CallsAreFresh`, `StaleBeforeClear`).
- `LibRemIntServer` frees the whole allocation even if the server named is not the
  one attached (`VectorTheorems.LibRemTakesAll`).
- `pci_auto_config_devices` resets `bus_lower` for child buses too. Ranges are
  disjoint between two resets, and over a tree exactly when only one stretch between
  resets granted anything (`BarTree.TreeDisjointExact`, `TreeDecides`). A bridge
  window covers what is behind it under a condition on the requests before and behind
  the bridge, which two bridges behind a third can break with nothing taken before
  (`BarTree.TreeWindowsExact`, `TreeWindowsDecide`, `NestedWindow`). All of this is
  so of real BARs and ROMs (`BusSetup.CardTreeDecides`, `CardWindowsDecide`).
- A 64-bit BAR of 4 GiB or more is sized 0, and in a region ending at 4 GiB that
  request is granted and uses the region up (`BarAlloc.RoomExact`, `ZeroTakesAll`).
- The 32-bit room test, the BAR containment test of `LibObtainPCIRegion` and the
  MSI-X table test wrap (`BarAlloc.RoomExact`, `Translate.AcceptsExact`,
  `MsixTable.BoundExact` say exactly when they are right).
- The extended capability walk looks at 480 entries, enough for entries of eight
  bytes but not for all 960 positions (`Capability.ExtComplete`, `LongChainMissed`).

## Assumptions

- Register words are naturals under the bit operators of `Words`; an MSI-X entry is
  four such words. Probe finds every MSI-X entry masked, as section 6.8.2 of PCI
  Local Bus Specification 3.0 has it after reset, and seeds the MSI mask shadow from
  the register (`VectorRuns.Start`).
- gic400 is a map from line to at most one server, plus a failure of its own.
- Allocating, freeing, attaching and detaching are atomic to each other, as the
  library's semaphore makes them. LibMaskIntVector, LibUnmaskIntVector and
  LibCheckSetINTxMask take no semaphore: they are steps of their own in `VectorRuns`,
  and in `Demux` a mask or unmask may come between any two accesses of a bind or an
  unbind, as the ISR and arriving messages may. A server called from the ISR may mask
  and unmask but not bind or unbind.
- The root complex is a single-function device, the tree is finite, the bus number
  base is 0 as the library passes it, and at most 255 buses lie below bus 0.
- The theorems about trees take a region that starts at 0x1000 or above and ends at or
  below 4 GiB. One that starts lower is used from 0x1000 on (`BarAlloc.Reset`).
- A device answers every sizing write of a register the same way, and BARs and ROMs
  ask for powers of two, or for the 0 a size of 4 GiB or more is cut to.

## Model

| member | source | states |
|---|---|---|
| SlotPool.FirstFreeExact | pcie/src/pci_irq.c:24-36 | the any-slot search takes distinct free slots in ascending order, as many as asked for or as many as are free |
| SlotPool.FirstFreeLowest | pcie/src/pci_irq.c:24-36 | the slots it takes are the lowest free ones |
| SlotPool.LowestBlockExact | pcie/src/pci_irq.c:38-50 | the aligned search returns the lowest free naturally aligned block, and fails if and only if no aligned position is free |
| SlotPool.RoundDownPow2Exact | pcie/src/pcie_msi.c:35-38 | the largest power of two not above the argument |
| SlotPool.LargestBlockExact | pcie/src/pcie_msi.c:153-166 | halving finds the largest size in range that has a free aligned block, at its lowest place, and fails if and only if no size in range has one |
| VectorTheorems.MessageTarget | pcie/src/pcie_brcmstb_msi.c:48-56 | in a consistent state the message of MSI vector v (base data OR v) and of MSI-X vector v (its table entry) decodes to slot `slots[v]` |
| VectorTheorems.OrVector | pcie/src/pcie_msi.c:104-112 | ORing a vector number into the message of an aligned power-of-two block selects base + vector |
| VectorTheorems.Delivery | pcie/src/pcie_brcmstb_msi.c:159-183 | end to end, over every run on any number of devices: a vector with a server has an open gate, its message latches its own slot, and the demux then calls for that slot exactly the server added to that vector |
| VectorTheorems.NoStrayCall | pcie/src/pcie_brcmstb_msi.c:171-180 | over every run, every call the demux can make is for a slot one device vector holds, and calls the server added to it |
| VectorTheorems.DeviceGates | pcie/src/pci_irq.c:105-163 | over every run: MSI on iff mode MSI, MSI-X on iff mode MSI-X, idle iff no vectors, shadow equals mask register, every gate a device has is open iff its vector has a server, INTx server agrees with gic400 |
| VectorTheorems.IntxDiscipline | bcmpcie.library/src/pcie_irq.c:247-254 | from probe on no device in a message mode may assert its INTx line throughout a run if and only if the run has no LibCheckSetINTxMask(FALSE) on such a device |
| VectorTheorems.OneServerPerLine | pcie/src/pcie_brcmstb_msi.c:95-123 | over every run at most one device has a server on a gic400 line, another attempt on it is refused, and taking the server off frees that line alone |
| VectorTheorems.AllocExact | pcie/src/pci_irq.c:60-87 | an allocation, exactly: the slots taken were free, are distinct and alone have moved at the root complex; MSI-X entry i carries the message of slot i, masked; MSI is told 2^mme vectors, the first slot's message, every capable vector masked; INTx off in both; every other register as it was; a failure changes nothing |
| VectorTheorems.AddExact | pcie/src/pci_irq.c:121-143 | attaching, exactly: each refusal; otherwise one gate, one slot or one line moves and nothing else |
| VectorTheorems.MaskExact | pcie/src/pci_irq.c:201-223 | the runtime mask moves the slot's bit, or the INTx disable bit, and nothing else |
| VectorTheorems.FreeLeaves | pcie/src/pci_irq.c:145-187 | over every run, after a free, or LibRemIntServer with whichever server: the line the device had a server on has none, other lines are as they were, INTx is off there; its slots alone have come back, those with a server lose it and are masked; MSI, MSI-X, masks and table entries are off, the other registers as they were |
| VectorTheorems.FreeGates | pcie/src/pcie_msix.c:128-136 | after free both types are off, every table entry is masked and no mask bit of an MSI vector the device has is left set |
| VectorTheorems.BestAlloc | pcie/src/pci_irq.c:71-86 | the type chosen is the first of MSI-X, MSI, INTx that is allowed and can meet the minimum; MSI-X gets exactly min(max, table, free slots), MSI the largest power of two with a free aligned block; otherwise nothing changes and the last failure is reported |
| VectorTheorems.BestMsi | pcie/src/pcie_msi.c:143-167 | MSI is granted if and only if some 2^k, k at most the device's log2_max_vecs, lies in the range and has a free aligned block, and the count is the largest such |
| VectorTheorems.BestMsix | pcie/src/pcie_msix.c:106-126 | MSI-X yields exactly what device, range and pool allow, or fails leaving everything as it was |
| VectorTheorems.AllocFree | pcie/src/pci_irq.c:167-187 | allocate, let other devices do anything, free: precisely the slots taken come back and the device is idle |
| VectorTheorems.RemUndoesAdd | pcie/src/pci_irq.c:145-163 | removing the server just added restores server table and line map and leaves the vector closed and masked, nothing else moved |
| VectorTheorems.MaskDiscipline | pcie/src/pcie_brcmstb_msi.c:58-63 | at the grain of whole calls: starting from probe, a slot is unmasked only while bound throughout a run if and only if no call of the run unmasks a message vector without a server |
| VectorTheorems.UnguardedUnmask | pcie/src/pci_irq.c:213-223 | without that condition it fails: allocate, unmask, free leaves a free slot unmasked |
| VectorTheorems.LibAddExact | bcmpcie.library/src/pcie_irq.c:156-180 | LibAddIntServer succeeds exactly when the device is idle and either MSI is preferred and possible or its INTx line is routed, free and accepted |
| VectorTheorems.LibRemTakesAll | bcmpcie.library/src/pcie_irq.c:185-197 | LibRemIntServer gives the whole allocation up, whichever server is named and however many vectors there are: slots, servers and the gic400 line |
| VectorRuns.StepKeeps | pcie/include/pci_types.h:152-159 | every call, message and interrupt keeps the whole invariant: ownership, gates, programming, INTx agreement, the drivers' record of attached servers |
| VectorRuns.StartInv | pcie/src/pcie_brcmstb.c:905-909 | the state probe leaves satisfies it |
| VectorRuns.PoolIsUnion | pcie/include/pci_types.h:268-275 | in every reachable state the bitmap is exactly the disjoint union of what the devices hold, and free slots have no server |
| VectorRuns.LibAddRollback | bcmpcie.library/src/pcie_irq.c:166-173 | a failed LibAddIntServer leaves controller and device as they were |
| Demux.NoMessageLost | pcie/src/pcie_brcmstb_msi.c:159-183 | with arrivals, masks and refused binds between any two register accesses: a message that reaches a slot after its bind returned is, until the slot is unbound, latched, or between CLR and call, or served by the server bound when it came |
| Demux.RunKeeps | pcie/src/pcie_brcmstb_msi.c:64-75 | every event of the step machine keeps its invariant: each message in one place, bound iff past the store, fresh from the CLR on |
| Demux.PassServesAll | pcie/src/pcie_brcmstb_msi.c:171-180 | a pass that has returned has given every message latched at its start for a bound slot to that slot's server, masked slots included |
| Demux.CallsAreFresh | pcie/src/pcie_brcmstb_msi.c:58-75 | a server is called for at least one message, and each of them came after the CLR of its bind if and only if that bind has got past its store |
| Demux.ServedOnce | pcie/src/pcie_brcmstb_msi.c:171-180 | no event repeats or takes back a delivery |
| Demux.StaleBeforeClear | pcie/src/pcie_brcmstb_msi.c:145-150 | a message that reached slot x under one server while x was masked, the line low, outlives the unbind; if another slot fires between the next bind's store and CLR the line rises, and every pass that follows gives the message to the new server; such a pass there is |
| Demux.MaskedThroughout | pcie/src/pcie_brcmstb_msi.c:58-90 | between single register accesses, from probe on: slots without a server or about to lose it stay masked throughout a run if and only if no unmask of one comes then; those without one, if and only if no unmask comes while there is none and no server is dropped from a slot unmasked since its MASK_SET |
| Demux.UnmaskTakenBack | pcie/src/pcie_brcmstb_msi.c:71-90 | the first condition is not needed for the second: MASK_SET, an unmask, a mask, then the NULL store |
| Demux.UnmaskRaisesLine | pcie/src/pcie_brcmstb_msi.c:77-90 | masking only delays: unmasking a slot that owes a message raises the line |
| Demux.BindSteps | pcie/src/pcie_brcmstb_msi.c:64-69 | the three register writes of bind amount to the atomic operation of the call-level model |
| Demux.UnbindSteps | pcie/src/pcie_brcmstb_msi.c:71-75 | likewise the two of unbind |
| DemuxRefinement.StepRefined | pcie/src/pcie_brcmstb_msi.c:48-90 | every call, message and interrupt of the call-level model is a run of the step machine; binds occur only on slots without a server |
| DemuxRefinement.VectorMessageKept | pcie/src/pcie_brcmstb_msi.c:159-183 | per device vector, over any run of calls on any devices: a message sent after its server was attached has been served by it, or waits in the latch, as long as the server stays attached |
| Demux.CallsExact | pcie/src/pcie_brcmstb_msi.c:171-180 | a pass calls the servers of exactly the bound slots in the snapshot, lowest first |
| IrqDriver.Controller.SlotsAllocAny | pcie/src/pci_irq.c:24-36 | the loop over the bitmap computes the any-slot search and sets the bits it took |
| IrqDriver.Controller.SlotsAllocAligned | pcie/src/pci_irq.c:38-50 | the mask loop computes the aligned search and sets the block |
| IrqDriver.Controller.LargestAligned | pcie/src/pcie_msi.c:153-166 | the halving loop computes the largest-block search |
| IrqDriver.Controller.SlotsFree | pcie/src/pci_irq.c:52-56 | the bits of exactly the listed slots are cleared |
| IrqDriver.Controller.SlotBind | pcie/src/pcie_brcmstb_msi.c:64-69 | the three stores are the atomic bind |
| IrqDriver.Controller.SlotUnbind | pcie/src/pcie_brcmstb_msi.c:71-75 | the two stores are the atomic unbind |
| IrqDriver.Controller.SlotSetMask | pcie/src/pcie_brcmstb_msi.c:82-90 | one mask bit moves |
| IrqDriver.Controller.DemuxIsr | pcie/src/pcie_brcmstb_msi.c:159-183 | the do-while over the snapshot, hardware setting bits before every access, makes exactly the calls of the reference and is a run of the step machine from Enter to return |
| IrqDriver.Device.RegisterBits | pcie/src/pci_int.c:35-46 | which bit or field of the command, Message Control and Vector Control words each decoded register is |
| IrqDriver.Device.SetIntx | pcie/src/pci_int.c:30-47 | the INTx disable bit and nothing else |
| IrqDriver.Device.MsiUpdateMask | pcie/src/pcie_msi.c:56-65 | shadow and mask register move together, on maskable devices only |
| IrqDriver.Device.MsiSetEnable | pcie/src/pcie_msi.c:67-76 | the enable bit, the other fields kept |
| IrqDriver.Device.MsiWriteMsg | pcie/src/pcie_msi.c:80-113 | message count, address and data as decoded by the device |
| IrqDriver.Device.MsiProgram | pcie/src/pcie_msi.c:118-136 | the device as configured for its block, every vector masked |
| IrqDriver.Device.MsiAlloc | pcie/src/pcie_msi.c:143-167 | computes the MSI allocation, controller and device unchanged on failure |
| IrqDriver.Device.MsiShutdown | pcie/src/pcie_msi.c:169-178 | MSI off, the vectors' mask bits cleared |
| IrqDriver.Device.EntrySetMask | pcie/src/pcie_msix.c:45-58 | one entry's mask bit |
| IrqDriver.Device.MsixSetCtrl | pcie/src/pcie_msix.c:36-43 | clear and set of the two control bits |
| IrqDriver.Device.MsixProgram | pcie/src/pcie_msix.c:63-99 | the table loop: entry v carries the message of slots[v], masked; MSI-X on, INTx off |
| IrqDriver.Device.MsixAlloc | pcie/src/pcie_msix.c:106-126 | computes the MSI-X allocation; too few slots are given back |
| IrqDriver.Device.MsixShutdown | pcie/src/pcie_msix.c:128-136 | enable off, function mask on |
| IrqDriver.Device.Choose | pcie/src/pci_irq.c:71-84 | the three attempts in order |
| IrqDriver.Device.VectorsAlloc | pcie/src/pci_irq.c:60-87 | computes the allocation the theorems are about |
| IrqDriver.Device.ServerOf | pcie/src/pci_irq.c:92-97 | the vector's server, by mode |
| IrqDriver.Device.SetGate | pcie/src/pci_irq.c:105-119 | opens or closes the vector's device gate |
| IrqDriver.Device.AddServer | pcie/src/pci_irq.c:121-143 | computes the attach operation |
| IrqDriver.Device.RemServer | pcie/src/pci_irq.c:145-163 | computes the detach operation |
| IrqDriver.Device.VectorsFree | pcie/src/pci_irq.c:167-187 | the detaching loop and teardown compute the free operation |
| IrqDriver.Device.VecSetMask | pcie/src/pci_irq.c:201-223 | computes the runtime mask |
| IrqDriver.Device.CheckSetIntxMask | bcmpcie.library/src/pcie_irq.c:247-254 | the INTx disable bit and nothing else, in any mode |
| IrqDriver.Device.AddIntServer | bcmpcie.library/src/pcie_irq.c:156-180 | computes LibAddIntServer with its rollback |
| IrqDriver.Device.RemIntServer | bcmpcie.library/src/pcie_irq.c:185-197 | computes LibRemIntServer |
| MsixTable.Msix.Init | pcie/src/pcie_msix.c:144-180 | the table is used iff its BAR is mapped memory and the 32-bit bound test passes |
| MsixTable.TableWords | pcie/src/pcie_msix.c:153-159 | entries are the low 11 bits plus one, the BAR index the low 3 bits, the offset the rest |
| MsixTable.BoundExact | pcie/src/pcie_msix.c:172-177 | that test is the containment of the table in the BAR exactly as long as offset plus table length stays below 4 GiB |
| MsixTable.EntryInBar | pcie/src/pcie_msix.c:31-34 | every entry of an accepted table lies in the BAR mapping under that condition |
| MsixTable.WrappedTable | pcie/src/pcie_msix.c:172-179 | an offset for which the wrapped test accepts a table outside the BAR |
| Enumeration.FoundExact | pcie/src/pci_probe.c:195-219 | a function is found iff it returns a vendor id, is of device 0 on buses 0 and 1, and is function 0 or its function 0 is there with bit 7 of the header type set |
| ProbeDriver.ListingExact | pcie/src/pci_probe.c:191-251 | the list of bus n holds exactly those functions, once each, in devfn order, with vendor, header type and class as answered |
| ProbeDriver.ScanExact | pcie/src/pci_probe.c:191-251 | from an empty list the 256-step scan yields that list |
| ProbeDriver.RescanAddsNothing | pcie/src/pci_lookup.c:10-22 | a second scan adds nothing |
| ProbeDriver.Enumerator.BindBusDevices | pcie/src/pci_probe.c:191-251 | the scan loop, reading through whatever the bridges forward, finds the functions of the bus it was meant for |
| ProbeDriver.Enumerator.ConfigWrite | pcie/src/pcie_brcmstb.c:122-154 | a bus-number write reaches the one bridge addressed and leaves the way to its bus open |
| ProbeDriver.Enumerator.Number | pcie/src/pci_probe.c:94-99 | the bus gets the next number and can be reached by it, and the bridges that forward that number are exactly the ones above the bus |
| ProbeDriver.Enumerator.Prescan | pcie/src/pci_auto.c:517-520 | primary, secondary, and 0xff as subordinate |
| ProbeDriver.Enumerator.Postscan | pcie/src/pci_auto.c:613-614 | the subordinate becomes the last number of the subtree; the subtree's registers are kept |
| ProbeDriver.Enumerator.ProbeBus | pcie/src/pci_probe.c:50-122 | on a reachable bus: succeeds iff every bridge in the subtree has a bridge header; then the bridge covers exactly the numbers its subtree took, and no register outside the subtree has changed |
| ProbeDriver.Enumerator.ConfigDevice | pcie/src/pci_auto.c:666-724 | a bridge is descended into, another device is not; returns the last number seen |
| ProbeDriver.Enumerator.ConfigDevices | pcie/src/pci_probe.c:124-143 | the whole bus is numbered in preorder and the maximum kept by the loop is the counter |
| ProbeDriver.Enumerator.Enumerate | bcmpcie.library/src/pcie_main.c:197-205 | any finite tree of at most 255 further buses is numbered in preorder, and enumeration fails iff a bridge without bridge header is met |
| Enumeration.ProperExact | pcie/src/pci_probe.c:61-69 | a tree enumerates iff every function found with class 0x0604, at any depth, has header type 1 |
| Enumeration.FinalNumbers | pcie/src/pci_probe.c:94-115 | numbers distinct and depth-first, intervals nested or disjoint, a cycle for a bus's number ends on that bus and nowhere else |
| Enumeration.Intervals | pcie/src/pci_auto.c:613-614 | [secondary, subordinate] of a bridge holds the number of a bus if and only if the bus is at or below it |
| Enumeration.Onto | pcie/src/pci_probe.c:95-96 | every number handed out is some bus's |
| Enumeration.Primary | pcie/src/pci_auto.c:518-518 | the primary number is that of the bus the bridge sits on |
| Enumeration.FinalRouting | pcie/src/pcie_brcmstb.c:122-154 | after the scan a cycle for a bus's number reaches exactly that bus |
| Enumeration.Unassigned | pcie/src/pcie_brcmstb.c:122-154 | a cycle for a number not handed out reaches nothing |
| Enumeration.OpenRouting | pcie/src/pci_auto.c:517-520 | at every access of the scan a cycle for the number being used reaches that bus and only it |
| Enumeration.AncestorsExactly | pcie/src/pci_auto.c:517-520 | when bus n is scanned the bridges whose interval holds n are exactly its ancestors |
| BarAlloc.RoomExact | pcie/src/pci_auto.c:49-66 | the wrapping room test, for a power of two, grants iff the aligned range fits or one of two wrapped cases holds, both needing a size not below bus_start; for 0 bytes iff the region starts at 0 or ends at 4 GiB |
| BarAlloc.ZeroTakesAll | pcie/src/pci_auto.c:203-203 | a 64-bit BAR of 4 GiB or more, its size cut to 0, is granted address 0 there and leaves nothing for the rest of the bus |
| BarAlloc.GrantExact | pcie/src/pci_auto.c:49-86 | for power-of-two sizes below bus_start: granted iff it fits, at the first aligned address; a failed request leaves bus_lower alone; a bus_lower of 0 stands for 4 GiB |
| BarAlloc.FullRegionGrantsAgain | pcie/src/pci_auto.c:59-61 | a full 2 GiB region ending at 4 GiB grants a second 2 GiB range at address 0 |
| BarAlloc.BaseDecodes | pcie/src/pci_auto.c:532-532 | the base register reads back as the rounded lower bound |
| BarAlloc.LimitDecodes | pcie/src/pci_auto.c:621-621 | the limit register reads back as the last byte below it |
| BarTree.TreeFollows | pcie/src/pci_auto.c:44-86 | over a whole tree the wrapping 32-bit allocator and the windows written do what an unbounded allocator makes of the requests and roundings of each stretch between resets, in order |
| BarTree.TreePacked | pcie/src/pci_auto.c:49-86 | over a whole tree, all ranges granted between two resets are size-aligned, inside the region, ascending and disjoint |
| BarTree.TreeDisjointExact | pcie/src/pci_probe.c:124-126 | over a whole tree, in a region starting at a multiple of every size, no two ranges overlap if and only if only one of the stretches between resets granted anything |
| BarTree.TreePlans | pcie/src/pci_probe.c:124-131 | what is asked for and rounded in each stretch, and in those before and behind each bridge, is the same in every region |
| BarTree.TreeDecides | pcie/src/pci_probe.c:124-126 | where every request fits by itself the tree decides beforehand: no overlap iff only one stretch asks for anything |
| BarTree.TreeWindowsExact | pcie/src/pci_auto.c:523-536 | every bridge of every tree: its window covers all that was granted behind it, at any depth, iff no stretch there begins below the base and none but the last ends above the limit; the latter iff, following the requests from the region's start, none reaches higher than the last one rounded up, as when only the last asks for anything |
| BarTree.TreeWindowsDecide | pcie/src/pci_auto.c:523-536 | where every request fits by itself the tree and the region's bounds decide beforehand: the window covers iff nothing is asked for since the reset before the bridge, or so much that the base shows 4 GiB as 0, or nothing behind it; and no stretch behind reaches higher than the last one rounded up |
| BarTree.WindowDecodes | pcie/src/pci_auto.c:617-623 | the base decodes to the allocator rounded up before the bus behind, 4 GiB showing as 0, the limit to the last byte below it rounded up afterwards |
| BarTree.FreshWindow | pcie/src/pci_auto.c:617-623 | nothing taken before: the base is the start, the window covers unless an earlier stretch ends above the limit, and is empty iff the allocator ended at the start |
| BarTree.PlainWindow | pcie/src/pci_auto.c:617-623 | ... and with plain devices behind the bridge it covers them all |
| BarTree.NestedWindow | pcie/src/pci_probe.c:124-126 | a bridge over two bridges whose window ends below a device behind the first, and the second bridge's window empty |
| BarSetup.Window.Init | pcie/src/pci_auto.c:33-42 | bus_lower to the start, 0x1000 at least |
| BarSetup.Window.Align | pcie/src/pci_auto.c:44-47 | the wrapping round-up |
| BarSetup.Window.Allocate | pcie/src/pci_auto.c:49-86 | computes the grant and the region after it |
| BarSetup.Bridge.PrescanMem | pcie/src/pci_auto.c:523-536 | rounds and writes MEMORY_BASE |
| BarSetup.Bridge.PostscanMem | pcie/src/pci_auto.c:617-623 | rounds and writes MEMORY_LIMIT |
| BarSetup.PickRegion | pcie/src/pci_auto.c:105-131 | the largest region of a kind, the first of equals, none iff there is none |
| BarSetup.SizeDecodes | pcie/src/pci_auto.c:184-211 | a response that is a negated power of two over flag bits decodes to it |
| BarSetup.ResponseDecodes | pcie/src/pci_auto.c:184-293 | ... with the masks of memory, I/O and ROM registers |
| BarSetup.AnswerBits | pcie/src/pci_auto.c:177-220 | from the bits of an answer: 0 and all-ones are no BAR, bit 0 is I/O, bits 2:1 equal to 2 are 64-bit, bit 3 is prefetchable where there is such a region, and the size is what the address bits are short of 4 GiB |
| BarSetup.TurnExact | pcie/src/pci_auto.c:167-280 | one turn from those bits: a BAR is placed iff its kind's region grants its size; address to its register, 0 to the upper half of a 64-bit BAR, the region moved on; otherwise the registers are left sized |
| BarSetup.SetupComplete | pcie/src/pci_auto.c:167-280 | no BAR is passed over: one that is come to and asks for something is placed if its region has room even at the end |
| BarSetup.SetupExact | pcie/src/pci_auto.c:167-281 | for responses asking for powers of two or 0: each placed BAR has the kind, width and size the bits of its response say, placed BARs are aligned, inside the stretch of their region taken since, ascending and disjoint, registers hold the addresses, a 64-bit BAR has its upper half zero and to itself, if and only if nothing was placed that did not fit |
| BarSetup.SetupSound | pcie/src/pci_auto.c:167-281 | which is so when every size is 0 or below the start of its region |
| BarSetup.RomApart | pcie/src/pci_auto.c:283-301 | the ROM is placed above every memory BAR |
| BarSetup.Function.AllocateFrom | pcie/src/pci_auto.c:49-57 | a request against the region of its kind; without that region it fails and moves nothing |
| BarSetup.Function.SetupBar | pcie/src/pci_auto.c:167-281 | one turn of the loop: a 64-bit BAR that found no room consumes only its first register |
| BarSetup.Function.SetupBars | pcie/src/pci_auto.c:167-281 | the loop computes the setup the lemma is about |
| BarSetup.Function.SetupRom | pcie/src/pci_auto.c:283-301 | the ROM is taken from the memory region, or left sized |
| BusSetup.PoolsExact | pcie/src/pci_auto.c:523-580 | bridges round each memory region to 1 MiB and the I/O region to 4 KiB; a reset goes back to the start, 0x1000 at least |
| BusSetup.RomExact | pcie/src/pci_auto.c:282-301 | the ROM from the bits of its answer: its size asked of the memory region, a range exactly if that grants some bytes |
| BusSetup.CardMirrors | pcie/src/pci_auto.c:141-301 | a function, ROM included, is to a region exactly the requests it makes there, and what they are granted is what BARs and ROM hold |
| BusSetup.CardTreeMirrors | pcie/src/pci_probe.c:50-143 | over a whole tree of functions, bridges among them, the memory BARs and ROMs or the prefetchable BARs, stretch by stretch, and the bridge windows over them are those of the tree of their requests |
| BusSetup.CardTreePacked | pcie/src/pci_probe.c:124-143 | ... those of one region placed between two resets are aligned, inside it, ascending and so disjoint, on however many buses |
| BusSetup.CardTreeDisjointExact | pcie/src/pci_probe.c:124-126 | ... in an aligned region no two of them in the whole tree overlap iff all were placed between the same two resets |
| BusSetup.CardTreeDecides | pcie/src/pci_probe.c:124-126 | ... and where every request fits by itself and upper halves of 64-bit BARs answer 0 or all-ones, iff all that the sizing answers ask of the region falls between the same two resets |
| BusSetup.CardWindowsDecide | pcie/src/pci_auto.c:523-558 | ... and the answers and the region's bounds decide likewise which bridge windows cover the BARs and ROMs behind them |
| BusSetup.BusDisjoint | pcie/src/pci_probe.c:124-143 | a bus of plain functions, no bridge among them: all its BARs and ROMs in one region are disjoint |
| BusSetup.KindsDisjoint | pcie/src/pci_auto.c:167-281 | ... and those in regions that share no address are disjoint |
| BusSetup.ConfigureNode | pcie/src/pci_auto.c:666-724 | own BARs, prescan, the bus behind, postscan compute the tree model's step |
| BusSetup.ScanBus | pcie/src/pci_probe.c:124-143 | reset and loop over the functions compute the tree model's scan |
| BarCache.CachedExact | pcie/src/pci_auto.c:250-275 | a placed memory BAR is cached with its address, size and the pointer to the first memory region that holds it, an I/O BAR without pointer |
| BarCache.PlacedBarsApart | pcie/src/pci_auto.c:254-281 | the BARs a device was given, as cached, overlap and wrap neither on the bus nor in memory |
| BarCache.PlacedRoundTrip | bcmpcie.library/src/pcie_mem.c:78-118 | every byte of a placed and mapped BAR that ends below 4 GiB is translated from logical to bus and back |
| Capability.EntryExact | pcie/src/pci_capability.c:20-34 | the list byte by byte: pointers rounded down to words, past the header, ending at an entry of 0xff |
| Capability.FindNextCapability | pcie/src/pci_capability.c:12-37 | on every configuration space, cyclic ones included: the first entry with the id on the whole list, 0 iff there is none |
| Capability.FindCapability | pcie/src/pci_capability.c:40-57 | no list without the status bit; the head depends on the header type |
| Capability.NoMatchAnywhere | pcie/src/pci_capability.c:14-14 | 72 steps see every entry a list of 48 positions can ever come to |
| Capability.Shortcut | pcie/src/pci_capability.c:20-34 | pigeonhole: what a walk comes to, it comes to within as many links as there are places |
| Capability.ExtEntryExact | pcie/src/pci_capability.c:66-88 | the extended list word by word: from 0x100 unless that word is 0, by the top 12 bits of each entry, ending below 0x100 |
| Capability.FindExtCapability | pcie/src/pci_capability.c:59-91 | the first match among the first 480 entries, 0 iff they hold none |
| Capability.ExtComplete | pcie/src/pci_capability.c:59-91 | of a chain of at most 480 different entries, cyclic or not, the walk misses nothing |
| Capability.ShortChainExact | pcie/src/pci_capability.c:63-64 | nothing lies past the first 480 entries if and only if the chain has at most 480 different ones |
| Capability.SpacedIsShort | pcie/src/pci_capability.c:63-64 | chains whose entries do not overlap in their eight bytes are that short |
| Capability.LongChainMissed | pcie/src/pci_capability.c:63-64 | a chain of 481 four-byte entries whose last is missed |
| Translate.FindPhys | pcie/src/pci_bar.c:14-44 | the loop translates by the first region that holds the whole access |
| Translate.FindBus | pcie/src/pci_bar.c:46-76 | likewise towards the bus |
| Translate.BusToPhysExact | pcie/src/pci_bar.c:14-44 | bus to CPU: the offset into the first matching region that holds the whole access, added to its CPU address; 0 if none does; unchanged without regions |
| Translate.PhysToBusExact | pcie/src/pci_bar.c:46-76 | CPU to bus likewise |
| Translate.BusToVirtExact | pcie/src/pci_bar.c:78-107 | there is a pointer iff such a region holds the access and the aperture its CPU side, and it is that offset into the aperture; NULL otherwise |
| Translate.VirtToBusExact | pcie/src/pci_bar.c:109-123 | a pointer has a bus address iff it lies in the aperture and a region holds the CPU access behind it |
| Translate.LogicToPhysicExact | bcmpcie.library/src/pcie_mem.c:78-98 | NULL stays NULL, an address in a mapped BAR keeps its offset into the first such, any other goes by the regions |
| Translate.PhysicToLogicExact | bcmpcie.library/src/pcie_mem.c:100-118 | likewise backwards |
| Translate.ObtainedExact | bcmpcie.library/src/pcie_mem.c:161-181 | the pointer lies at its offset into the first memory BAR whose ends pass the 32-bit test, NULL if none does |
| Translate.BusRoundTrip | pcie/src/pci_bar.c:14-76 | bus to CPU to bus is the identity where the first step succeeds, and the access never straddles a region |
| Translate.CpuRoundTrip | pcie/src/pci_bar.c:14-76 | CPU to bus to CPU likewise |
| Translate.BusVirt | pcie/src/pci_bar.c:78-107 | computes the pointer, NULL outside the aperture |
| Translate.VirtBus | pcie/src/pci_bar.c:109-123 | computes the bus address of a pointer |
| Translate.VirtRoundTrip | pcie/src/pci_bar.c:78-123 | bus to pointer to bus is the identity wherever there is a pointer, and the access stays in the aperture |
| Translate.TopAperture | pcie/src/pci_bar.c:113-118 | an aperture ending at the top of the logical space takes no pointer back |
| Translate.FindLogicToPhysic | bcmpcie.library/src/pcie_mem.c:78-98 | BAR windows first, then the region table |
| Translate.FindPhysicToLogic | bcmpcie.library/src/pcie_mem.c:100-118 | likewise backwards |
| Translate.LogicInBar | bcmpcie.library/src/pcie_mem.c:78-118 | in a BAR window the way there and back is the identity exactly when the BAR does not end at 4 GiB on the bus |
| Translate.LogicPassed | bcmpcie.library/src/pcie_mem.c:78-118 | without regions an address outside the windows comes back iff it is no bus address of a mapped BAR |
| Translate.LogicRoundTrip | bcmpcie.library/src/pcie_mem.c:78-118 | logical to PCI to logical is the identity wherever the first step gives an address and no BAR ending at 4 GiB is in the way |
| Translate.ObtainPCIRegion | bcmpcie.library/src/pcie_mem.c:161-181 | computes the pointer into the first BAR the test accepts, NULL if none |
| Translate.AcceptHitExact | bcmpcie.library/src/pcie_mem.c:168-179 | the search finds the first BAR the wrapping test accepts |
| Translate.AcceptsExact | bcmpcie.library/src/pcie_mem.c:174-175 | when that test is containment in the BAR, and how it errs when one of the two ends wraps |
| Regions.Walk.Next | pcie/src/pcie_brcmstb.c:627-644 | yields the next whole record and advances past it |
| Regions.DmaWindow | pcie/src/pcie_brcmstb.c:670-696 | the first record decides; the window has equal bus and CPU addresses and is cut at 2 GiB |
| Regions.Table.AddRanges | pcie/src/pcie_brcmstb.c:717-760 | the loop appends exactly the kept ranges |
| Regions.Table.AddBanks | pcie/src/pcie_brcmstb.c:773-803 | the loop appends exactly the first four reachable banks |
| Regions.Table.Build | pcie/src/pcie_brcmstb.c:702-806 | no write leaves the table; it holds the kept ranges in order, then the banks |
| Regions.TableApart | pcie/src/pcie_brcmstb.c:702-806 | no region of a table so built wraps in either space, so there and back translates the identity for it whenever no two of its windows overlap |
| Regions.RecordAt | pcie/src/pcie_brcmstb.c:627-644 | record j read off its own cells: attribute, PCI address, CPU address and size, each as wide as the node says |
| Regions.KeepExact | pcie/src/pcie_brcmstb.c:717-758 | a record becomes a region iff its space bits are not 0, bus address and size have 32 bits, it is not empty and ends in both address types; I/O for space 1, else prefetchable by bit 30, else memory |
| Regions.KeptInOrder | pcie/src/pcie_brcmstb.c:717-760 | the kept ranges are the in-order image of the records that are so |
| Regions.BanksInOrder | pcie/src/pcie_brcmstb.c:773-803 | the banks are the in-order image of the fast memory wholly in the window, four at most, as memory regions with the system bit set |
| Regions.BanksExact | pcie/src/pcie_brcmstb.c:773-803 | four at most, all in the DMA window, below 2 GiB, bus address equal to CPU address |
| Regions.RecordsCount | pcie/src/pcie_brcmstb.c:711-711 | as many records as the table has room for |
| Intx.SwizzleSum | pcie/src/pci_int.c:71-81 | swizzling up a path moves the pin by the sum of the slot numbers below the root bus |
| Intx.Line.AssignIrq | pcie/src/pci_int.c:83-127 | a nonzero pin ends in 1..4 at that value, 1 standing in for an illegal one, and picks that entry of the map; a zero pin changes nothing |

## Left out

- Controller bring-up, SerDes, link training and retraining: timing and hardware.
- Device-tree, exec, gic400 and mailbox calls: property values are sequences of cells, and DT_GetNumber, whose source is not part of this model, is a big-endian number cut to 64 bits.
- Memory allocation failures, and with them the error returns of creating buses, devices and the region array.
- pci_msi_init: plain decoding of one control word; its results are the constants of a device.
- NULL pointers passed for a server, a device or a pin map.
- What a failed enumeration leaves in the registers: only when it fails is stated.
- Bus numbers past 255, which the byte registers would wrap.
- The I/O region over a tree and its bridge windows, which round to 4 KiB, and the type bits of the prefetch window registers: the trees are those of the two memory regions.
- LibFLR and raw configuration writes, which can change a device's registers behind the library's back.
- The command, cache line and latency registers pciauto_setup_device writes, and the cached raw sizing response.
- The upward call of pci_probe_bus for its parent, which finds the parent's bridge active.
- Memory ordering of relaxed accesses: an access takes effect where it is written.
- Mask changes made by servers inside the ISR: the step machine has them, the ISR method's arrivals do not.
- CONFIG_SYS_PCI_64BIT branches, ARI, byte order of MMIO, the ECAM index register.
- lspci, the openpci shim, attribute tags, find functions and DMA pool wrappers: wrappers and easy members.
- Translate.AcceptsExact: judges one BAR; which BAR is used is stated by Translate.AcceptHitExact.
- VectorTheorems.MaskDiscipline: takes an unmask as one step among calls; between single register accesses the discipline is Demux.MaskedThroughout.
- The number of BAR registers by header type and a bridge's ROM register: `Card` takes the answers of the registers there are.
- VectorTheorems.DeviceGates: gates of a device without MSI mask bits, which has none to close.
