# PCI configuration layer and Intel VT-d engine of kvm-unit-tests

This project models two pieces of the kvm-unit-tests support library and proves properties of them in Dafny. Both are written in C.

The PCI layer (`lib/pci.c`) works on the configuration space of bus 0 and covers:
- device lookup;
- the command register;
- base address registers (BARs): their classification and decoding, and the save / write-all-ones / read-back / restore size probe of section 6.2.5.1 of the PCI Local Bus Specification 3.0;
- the capability walk of section 6.7;
- MSI programming, section 6.8.1.

The VT-d engine (`lib/x86/intel-iommu.c`) drives an Intel VT-d remapping unit and covers:
- the one-bit-at-a-time global command / status protocol;
- setting up the root table and the interrupt remapping (IR) table;
- lazy creation of root entries (one per bus) and context entries (one per device/function);
- the 3-level, 512-way second-level page-table insert, and the page-by-page range mapping loop;
- the interrupt index allocator and the IR table entry (IRTE) builder;
- the remappable-format MSI address.

The descriptor formats follow chapter 9 of the Intel VT-d Architecture Specification. The MSI address follows its section 5.1.2.2.

How the model is organised:
- **Configuration space** (`pci_config.dfy`) is a class `ConfigSpace`.
  - It has a map from (device, dword index) to a 32-bit register, and a write-mask per register.
  - A ghost log records every configuration write in the order it was issued.
  - A register no device decodes reads all-ones and drops writes.
- **The device handle** `struct pci_dev` is the class `Pci.PciDev`. It holds the `bar` array and the MSI offset, which the source updates in place.
- **The VT-d unit's registers** are the class `VtdRegisters.Dmar`. It carries an explicit hardware model of how the unit acknowledges commands.
- **Memory the tables live in** is an arena of 4 KiB frames of 64-bit words (`VtdTables`).
  - A ghost ownership map records what each frame holds and which entry points to it.
  - The invariant `WF` says every present pointer entry points to a frame owned as its own child. Hence the tables form a tree.
  - That tree shape is what lets each write be proved to change exactly the translations it means to.
- **Descriptors** are `bv64` words built with explicit shifts and masks (`VtdDescriptors`).
- **The engine** (`intel_iommu.dfy`) is the class `IntelIommu.Iommu`. It owns the memory, the free-frame sequence `alloc_page` hands out from, and the `index_ctr` counter.

The BAR field is named `bar` throughout, and the device address field `bdf`.

## Model

| member | source | states |
|---|---|---|
| Pci.AbsentSlotDoesNotExist | lib/pci.c:86-90 | a slot whose identifier register no device decodes reads all-ones, so `pci_dev_exists` is false for it |
| Pci.MatchingSlotExists | lib/pci.c:86-90 | a slot whose vendor and device ids match ids other than 0xffff exists |
| Pci.DevExists | lib/pci.c:86-90 | a slot exists only when its vendor-id register is decoded and does not read all-ones |
| Pci.FindDev | lib/pci.c:99-110 | returns `PCIDEVADDR_INVALID` exactly when no devfn below `PCI_DEVFN_MAX` matches both ids; otherwise the smallest matching devfn |
| Pci.PciDev.constructor | lib/pci.c:92-96 | a handle for the given address, with every cached BAR address and the MSI offset zero |
| Pci.SetClr | lib/pci.c:74-84 | the written command word has every set bit on, every clear bit off, and every other bit as read |
| Pci.PciDev.CmdSetClr | lib/pci.c:74-84 | requires disjoint set and clear masks; issues exactly one 16-bit write of that word to `PCI_COMMAND`, and configuration space becomes the result of that write |
| Pci.BarMask | lib/pci.c:112-116 | the mask clears bits 0-1 and keeps bits 4-31; it clears bits 2-3 as well exactly when the BAR's space bit is clear (a memory BAR) |
| Pci.BarGet | lib/pci.c:118-122 | BAR n, for n below 6, is a dword-aligned register from 0x10 to 0x24; a register no device decodes reads all-ones |
| Pci.BarIsMemory | lib/pci.c:192-197 | a BAR is a memory BAR exactly when its mask is the memory mask |
| Pci.BarIsValid | lib/pci.c:199-202 | a BAR that is not valid (reads 0) classifies as a memory BAR |
| Pci.BarIs64 | lib/pci.c:204-213 | a BAR is 64-bit exactly when it is a memory BAR whose type field (bits 1-2) is 0b10; a 64-bit BAR is valid |
| Pci.BarGetAddr | lib/pci.c:124-134 | the low dword of the address is the BAR under its mask; the high dword is the next BAR for a 64-bit BAR and 0 otherwise; a BAR reading 0 gives address 0 |
| Pci.JoinHalves | lib/pci.c:124-134 | a 64-bit address is its low dword joined with its high dword shifted left by 32 |
| Pci.LowWriteBits | lib/pci.c:136-145 | writing a 16-byte-aligned address keeps a BAR's read-only information bits (space and type), and a memory BAR's address bits then read as the address |
| Pci.DecodeLowDword | lib/pci.c:124-134 | a memory BAR whose address bits are the address's low dword decodes to the address: when 32-bit and the address fits in 32 bits, or when 64-bit and the upper dword holds the high dword |
| Pci.RoundTrip32 | lib/pci.c:124-145 | writing an address to a 32-bit memory BAR keeps it 32-bit and makes it decode to that address |
| Pci.RoundTrip64 | lib/pci.c:124-145 | writing an address to both dwords of a 64-bit memory BAR keeps it 64-bit and makes it decode to that address |
| Pci.NextBarOffset | lib/pci.c:118-122 | BAR n + 1 is the dword 4 bytes after BAR n, a different register |
| Pci.LowWriteOnly | lib/pci.c:140-144 | when the BAR reads as 32-bit after the low write, `pci_bar_set_addr` issues that write only |
| Pci.LowThenHighWrite | lib/pci.c:140-144 | when the BAR reads as 64-bit after the low write, the low dword is written and then the next dword gets the high 32 bits |
| Pci.SetGetAddr32 | lib/pci.c:124-145 | `pci_bar_get_addr` after `pci_bar_set_addr` returns the address written, for a 32-bit memory BAR and an address the BAR can hold |
| Pci.SetGetAddr64 | lib/pci.c:124-145 | the same round trip for a 64-bit memory BAR pair |
| Pci.PciDev.BarSetAddr | lib/pci.c:136-145 | logs the low write and, only when the BAR then reads as 64-bit, the high write; configuration space is the result of those writes |
| Pci.ProbeRestores | lib/pci.c:157-169 | writing all-ones and then the saved value leaves every register as it was |
| Pci.ProbeReadsWritableBits | lib/pci.c:163-165 | the all-ones write reads back as the register with every writable bit set |
| Pci.PciDev.BarSizeHelper | lib/pci.c:157-169 | returns the probe value (the BAR with its writable bits set), leaves configuration space as it was, and logs exactly the two writes to that BAR |
| Pci.PciDev.BarSize | lib/pci.c:171-190 | returns 0 when the probe reads 0; otherwise the two's complement of the masked probe, in 32-bit arithmetic for a 32-bit BAR, and in 64-bit arithmetic with the upper dword's probe joined above for a 64-bit BAR; configuration space is left as it was |
| Pci.ContiguousSize32 | lib/pci.c:171-190 | a 32-bit BAR whose writable bits are exactly bit k and above sizes to 2^k |
| Pci.ContiguousSize64 | lib/pci.c:182-187 | a 64-bit pair whose combined writable bits are exactly bit k and above sizes to 2^k |
| Pci.BarSize32IsPowerOfTwo | lib/pci.c:147-190 | the probe of such a 32-bit BAR in configuration space yields the window size 2^k |
| Pci.BarSize64IsPowerOfTwo | lib/pci.c:182-187 | the probe of such a 64-bit BAR pair yields 2^k |
| Pci.SameType | lib/pci.c:204-213 | whether a BAR is 64-bit depends only on its four information bits (space indicator and memory type), so a write that keeps them keeps the classification |
| Pci.ScanFrom | lib/pci.c:307-320 | the scan keeps the six slots of the `bar` array; what it stores in them is stated by `ScanSlot` and `ScanSkipped` |
| Pci.ScanSlot | lib/pci.c:307-320 | every slot the scan examines keeps its old value when its BAR reads 0, and otherwise holds the BAR's decoded address |
| Pci.ScanSkipped | lib/pci.c:315-318 | a slot the scan does not examine is the upper half of a 64-bit pair whose low half it examines, and is left 0 |
| Pci.ScanUntouchedBelow | lib/pci.c:311-319 | the scan from BAR i leaves the slots below i alone |
| Pci.NotVisitedBelow | lib/pci.c:311-319 | the scan from BAR i examines no slot below i |
| Pci.PciDev.ScanBars | lib/pci.c:307-320 | the `bar` array ends as the scan specification gives it, so the slot properties above hold of it |
| Pci.ScanOverflowsOnLastBar | lib/pci.c:315-317 | the loop as written stores into slot 6 of the six-slot array when BAR5 reads as a 64-bit memory BAR |
| Pci.HandlerFor | lib/pci.c:19-21 | a capability id has a handler exactly when it is the MSI id |
| Pci.CapChain | lib/pci.c:28-35 | a chain found within the hop bound has at most that many nodes, none of them zero, and starts at the first offset when that is nonzero |
| Pci.CapChainStep | lib/pci.c:29-34 | a chain that ends at a zero pointer starts with its first node and continues from that node's next pointer |
| Pci.LastMsiIsLastMsiNode | lib/pci.c:12-17 | the recorded MSI offset is that of the last MSI node of the chain, or the starting value when the chain has none |
| Pci.PciDev.CapWalk | lib/pci.c:23-36 | for a chain that ends at a zero pointer, visits the offsets in chain order from the byte at `PCI_CAPABILITY_LIST` and leaves the MSI offset as the last MSI node's |
| Pci.MsiWritesPlacement | lib/pci.c:54-65 | the second-last write is the data dword; it goes to the 64-bit data offset exactly when the control word has the 64-bit flag |
| Pci.MsiWritesDistinct | lib/pci.c:53-69 | every write goes to a register of the MSI capability (control, address low, address high, data), and no two writes share an offset, so none overwrites another |
| Pci.MsiControlWrittenLast | lib/pci.c:68-69 | the control word is the last write, and differs from the one read only in the enable bit, which is set; every earlier write is a dword write |
| Pci.PciDev.SetupMsi | lib/pci.c:38-72 | returns false and writes nothing when no MSI capability was recorded; otherwise returns true after issuing exactly the MSI write sequence |
| Pci.PciDev.EnableDefaults | lib/pci.c:322-328 | scans the BARs, issues one command write that turns bus mastering on, then records the last MSI node of the capability chain |
| PciConfig.StoreLOther | lib/pci.c:140-144 | a dword write leaves every other register as it was |
| PciConfig.StoreLReadBack | lib/pci.c:163-165 | a dword write to a decoded register reads back as its writable bits from the value and the rest as before |
| PciConfig.StoreWReadBack | lib/pci.c:76-83 | a 16-bit write to a fully writable register reads back as written and leaves the other half of the dword alone |
| PciConfig.ConfigSpace.WriteL | lib/pci.c:163-166 | a dword write: the registers become the result of the write and the write is appended to the log |
| PciConfig.ConfigSpace.WriteW | lib/pci.c:83 | a 16-bit write: the registers become the result of the write and the write is appended to the log |
| VtdRegisters.OneBitOnly | lib/x86/intel-iommu.c:72 | `ONE_BIT_ONLY(x)` holds exactly when x is nonzero and x & -x is x, its lowest set bit |
| VtdRegisters.OneBitOnlyIsPowerOfTwo | lib/x86/intel-iommu.c:72 | `ONE_BIT_ONLY(x)` holds exactly when x is a power of two |
| VtdRegisters.PowerOfTwoOneBit | lib/x86/intel-iommu.c:72 | every power of two passes `ONE_BIT_ONLY` |
| VtdRegisters.Dmar.GcmdOr | lib/x86/intel-iommu.c:88-104 | requires a single command bit; afterwards the command and status registers both hold the status read at entry with that bit added, and the status shows it |
| VtdRegisters.Dmar.WaitStatus | lib/x86/intel-iommu.c:103 | the poll ends with the status equal to the command written |
| VtdRegisters.OneShotStatus | lib/x86/intel-iommu.c:98-100 | a one-shot command bit is in the status as soon as it is written |
| VtdRegisters.PersistentStatus | lib/x86/intel-iommu.c:102-103 | a persistent bit is not yet in the status right after the write, and is once the unit takes the command up |
| VtdRegisters.OrAbsorbsWhenShown | lib/x86/intel-iommu.c:95-96 | writing the status with its own shown bit added changes nothing, so enabled bits are kept |
| VtdRegisters.Dmar.SetRootTablePointer | lib/x86/intel-iommu.c:118-119 | `RTADDR` holds the page address and reads back through the page mask as it; the root-table status bit is added and the IR table address is unchanged |
| VtdRegisters.Dmar.SetIrTablePointer | lib/x86/intel-iommu.c:129-130 | `IRTA` holds the page address with size field 0xf and reads back through the page mask as the page address; the IR-table status bit is added |
| VtdRegisters.IrtaValue | lib/x86/intel-iommu.c:128-129 | the value written to `IRTA` has size field 0xf in bits 0-3 and the table's address in the bits above |
| VtdRegisters.SizedPageAddress | lib/x86/intel-iommu.c:85 | the size field is masked off when the IR table address is read |
| VtdDescriptors.PageFrameOfFrame | lib/x86/intel-iommu.c:190 | the frame number of a frame's page is the frame, and the page is 4 KiB aligned |
| VtdDescriptors.RootRoundTrip | lib/x86/intel-iommu.c:26-33 | a root entry decodes back from its low word, and re-encoding a decoded word keeps everything but the reserved bits 1-11 |
| VtdDescriptors.ContextRoundTrip | lib/x86/intel-iommu.c:36-49 | a context entry decodes back from its two words |
| VtdDescriptors.NewContextWords | lib/x86/intel-iommu.c:203-212 | the context entry created for a device has the frame in bits 12-63 of its low word with present and fault-reporting-disabled set and translation type multi-level, and a high word holding 39-bit width and domain id = source id, and decodes back to that entry |
| VtdDescriptors.TablePteFields | lib/x86/intel-iommu.c:144-148 | a table entry points to its frame, has both RW bits and no super-page bit |
| VtdDescriptors.LeafPteFields | lib/x86/intel-iommu.c:151-152 | a leaf for a page-aligned address has both RW bits, no super-page bit, and that address in its address field |
| VtdDescriptors.NewIrte | lib/x86/intel-iommu.c:240-251 | the low word of the new entry has present and fault-processing-disabled set and every other bit of 0-15 clear, the vector in bits 16-23 and the destination in bits 32-63; the high word is the source id with validation type 1 |
| VtdDescriptors.IrteRoundTrip | lib/x86/intel-iommu.c:52-69 | an IRTE decodes back from its two words, every field in its place |
| VtdDescriptors.IrteReservedZero | lib/x86/intel-iommu.c:52-69 | the available, reserved and upper source bits of an encoded IRTE are zero |
| VtdDescriptors.MsiAddress | lib/x86/intel-iommu.c:291-295 | the address has a zero high dword and 0xfee in bits 20-31 |
| VtdDescriptors.MsiAddressFields | lib/x86/intel-iommu.c:291-295 | bit 2 of the address is index bit 15, bits 5-19 are the low 15 bits, bit 4 is 1, bit 3 is 0, bits 20-31 are 0xfee, and the high dword is 0 |
| VtdDescriptors.MsiHandleRoundTrip | lib/x86/intel-iommu.c:254-262 | the index is recovered from the address, so the encoding is injective on 16-bit indices |
| VtdDescriptors.FetchVirtAddrAsWritten | lib/x86/intel-iommu.c:158-159 | the macro as written yields a value below 2^52 and no larger than its argument |
| VtdDescriptors.FetchVirtAddrMissesPage | lib/x86/intel-iommu.c:158-159 | for every nonzero frame the macro as written yields an address other than the frame's page |
| VtdDescriptors.FetchVirtAddrExample | lib/x86/intel-iommu.c:195 | a root entry for the context table at frame 1 (page 0x1000) is fetched as address 0 |
| VtdAddress.IndicesInjective | lib/x86/intel-iommu.c:180-184 | two requests read the same entries exactly when they come from the same source id and agree on iova bits 12-38 |
| VtdAddress.BusDevfnInjective | lib/x86/intel-iommu.c:180-181 | the bus and device/function indices together determine the source id |
| VtdAddress.PgdirOffset | lib/x86/intel-iommu.c:142 | the offset into a page-table level is below 512, an index inside the table's page |
| VtdAddress.OffsetAt | lib/x86/intel-iommu.c:141-151 | the walk reads level `level`'s table at the `PGDIR_OFFSET` of that level |
| VtdAddress.PageStep | lib/x86/intel-iommu.c:218-226 | one turn of the mapping loop leaves one page fewer and moves iova and pa to the next page of their ranges |
| VtdAddress.PageAtAligned | lib/x86/intel-iommu.c:176-177 | every page of a range with an aligned base is aligned |
| VtdTables.RoleOnWalk | lib/x86/intel-iommu.c:183-216 | in well-formed tables, the frame a walk reads at depth k is the root table or the child of exactly the entry read before it |
| VtdTables.WalksMeet | lib/x86/intel-iommu.c:134-156 | the tables do not share: two walks that read the same entry read it at the same depth along the same indices |
| VtdTables.CreateStep | lib/x86/intel-iommu.c:143-147 | linking a fresh empty table into a missing entry keeps the tables a tree, changes no translation, and the walk now reaches the new table |
| VtdTables.LeafStep | lib/x86/intel-iommu.c:151-152 | writing a walk's leaf gives that walk the new translation, keeps the tables a tree, and changes no other translation |
| VtdTables.UnwalkedWrite | lib/x86/intel-iommu.c:189 | writing a word no walk reads (an IRTE word, the high word of a root or context entry) changes no translation |
| VtdMapping.RootEntryCreated | lib/x86/intel-iommu.c:186-193 | a missing root entry set to a fresh context table keeps the tables a tree, makes every walk of the source reach that table, and changes no translation |
| VtdMapping.RootEntryFound | lib/x86/intel-iommu.c:194-195 | a present root entry leads every walk of the source to the context table it names |
| VtdMapping.ContextEntryCreated | lib/x86/intel-iommu.c:200-214 | a missing context entry filled in for a fresh page table keeps the tables a tree, makes every walk of the source reach it, and changes no translation |
| VtdMapping.ContextEntryFound | lib/x86/intel-iommu.c:215-216 | a present context entry leads every walk of the source to the page table it names |
| VtdMapping.TableEntryCreated | lib/x86/intel-iommu.c:143-148 | a level 3 or 2 entry with RW clear linked to a fresh table keeps the tables a tree and every walk's page table, and changes no translation |
| VtdMapping.LeafInstalled | lib/x86/intel-iommu.c:151-152 | after the descent, the leaf write sets the walk's translation; since the start only the entries of that walk at levels 3, 2 and 1 changed |
| VtdMapping.InstallStep | lib/x86/intel-iommu.c:218-226 | installing one more page extends the installed leaves by that page (last write wins), and nothing else changes |
| VtdMapping.WantedLastUse | lib/x86/intel-iommu.c:218-226 | a page no later page of the range reuses keeps the leaf mapping its own page of pa |
| VtdMapping.WantedUntouched | lib/x86/intel-iommu.c:218-226 | a walk that uses none of the range's entries is not among those installed |
| VtdMapping.RangeMapped | lib/x86/intel-iommu.c:218-226 | after the loop, page j of the range translates to page j of pa with both RW bits, for every page no later page reuses |
| VtdMapping.RangeKept | lib/x86/intel-iommu.c:218-226 | after the loop, every translation that uses none of the range's entries is as before |
| IntelIommu.TakenFromFront | lib/x86/intel-iommu.c:144 | taking each page from the front of the arena keeps the remaining pages a suffix of the initial ones |
| IntelIommu.Iommu.constructor | lib/x86/intel-iommu.c:231 | empty memory, no frame in use, the given arena, and the interrupt index counter at 0 |
| IntelIommu.Iommu.AllocPage | lib/x86/intel-iommu.c:115 | returns the first free frame, which is not in use, and removes it from the arena |
| IntelIommu.Iommu.ClaimPage | lib/x86/intel-iommu.c:115-117 | the first free frame, now owned in the given role and empty; the arena invariant is kept |
| IntelIommu.Iommu.SetupRootTable | lib/x86/intel-iommu.c:113-121 | a fresh empty root table from the arena whose page is in `RTADDR`, with the root-table status bit added; the tables are a tree rooted there |
| IntelIommu.Iommu.SetupIrTable | lib/x86/intel-iommu.c:123-132 | a fresh empty IR table from the arena, its page with size field 0xf in `IRTA`, and the IR-table status bit added |
| IntelIommu.Iommu.ContextTableFor | lib/x86/intel-iommu.c:174-195 | a present root entry is reused with no allocation; a missing one gets a fresh context table; either way every walk of the source reaches the returned table, and no translation changes |
| IntelIommu.Iommu.PageTableFor | lib/x86/intel-iommu.c:197-216 | a present context entry is reused with no allocation; a missing one is filled in for a fresh page table; either way every walk of the source reaches the returned page table, and no translation changes |
| IntelIommu.Iommu.NextLevel | lib/x86/intel-iommu.c:142-148 | an entry with RW clear gets a fresh table and one with RW set is followed unchanged; the walk reaches the returned table, and no translation changes |
| IntelIommu.Iommu.Descend | lib/x86/intel-iommu.c:141-149 | one turn of the descent keeps its invariant: at most one frame taken per level, no translation changed, and only entries on the walk written |
| IntelIommu.Iommu.InstallPte | lib/x86/intel-iommu.c:134-156 | the iova translates to the leaf for pa; no other translation changes; only the walk's entries at levels 3, 2 and 1 are written; at most two frames are taken; when the walk already reached its leaf, only the leaf is overwritten |
| IntelIommu.Iommu.SetLeaf | lib/x86/intel-iommu.c:151-152 | the leaf store finishes the installation with the properties stated for `InstallPte` |
| IntelIommu.Iommu.MapPages | lib/x86/intel-iommu.c:218-226 | after the loop, every walk of the range ends on the leaf the last page that used it wrote, and every other walk is as before |
| IntelIommu.Iommu.MapRange | lib/x86/intel-iommu.c:169-227 | for aligned iova, pa and size: each page of the range translates to the matching page of pa with both RW bits; translations that use none of the range's entries are unchanged; the tables stay a tree |
| IntelIommu.MappedLeaf | lib/x86/intel-iommu.c:152-155 | the leaves the mapping writes map their own page and have the super-page bit clear |
| IntelIommu.Iommu.IntrIndexAlloc | lib/x86/intel-iommu.c:229-234 | requires the counter below 65535; returns the counter and increments it, so the indices are 0, 1, 2, … each below the next |
| IntelIommu.Iommu.SetupIrte | lib/x86/intel-iommu.c:236-252 | only the two words of the entry at the index change; they decode to the entry with present, fault processing disabled, physical, edge, fixed, remapped format, the vector and destination given, the device's source id, qualifier 0 and validation type 1; no translation changes |
| IntelIommu.IrteInPage | lib/x86/intel-iommu.c:125-129 | an entry lies inside the table's one page exactly when its index is below 256 |
| IntelIommu.IrIndexBeyondPage | lib/x86/intel-iommu.c:125-129 | as written, indices from 256 up to 65534 pass the allocator's check although their entries lie past the table's page, whose size field declares 2^16 entries |
| IntelIommu.Iommu.SetupMsi | lib/x86/intel-iommu.c:278-300 | allocates the next index and fills its IRTE; the device's MSI capability gets the remappable address of that index and data 0; the success flag of `pci_setup_msi` is returned unchanged; on success configuration space is the MSI write sequence for that address applied to the registers at entry |
| IntelIommu.OneBitConstants | lib/x86/intel-iommu.c:308-312 | every command bit `vtd_init` issues passes `ONE_BIT_ONLY` |
| IntelIommu.Iommu.Init | lib/x86/intel-iommu.c:302-313 | `RTADDR` holds the root table's page and `IRTA` the IR table's page with size field 0xf; the QI, root-table, IR-table, DMA-remapping and interrupt-remapping status bits are all set |

## Left out

- Printing: `pci_print`, `pci_dev_print`, `pci_dev_print_id`, `pci_bar_print` (with its abort on an unknown memory type), `vtd_dump_init_info` and every `printf`. They only report.
- lib/pci-edu.c, lib/pci-edu.h, x86/intel-iommu.c and arm/pci-test.c are not part of this model. They are a test device driver and test entry points.
- The configuration accessors `pci_config_read*` / `pci_config_write*` are architecture code outside these files. They are modelled by `ConfigSpace`:
  - an all-ones value for registers no device decodes;
  - a write-mask per register;
  - the byte and half-word lanes of configuration mechanism #1.
- `pci_translate_addr` is taken as the identity. So are `virt_to_phys` and `phys_to_virt`: the page of frame f is at `f << 12`.
- `alloc_page` is a free-frame sequence handed to the `Iommu` constructor. The `memset` that follows each allocation is modelled by a fresh frame having no stored words, which read as zero. Running out of pages, where `alloc_page` returns NULL and `memset` is handed it, is not modelled: every allocating operation requires enough free frames, one for `AllocPage` and each table setup, two for `InstallPte` and `Init`, `2 * Pages(size)` for `MapPages` and `2 + 2 * Pages(size)` for `MapRange`.
- `vtd_readl` / `vtd_writel` / `vtd_readq` / `vtd_writeq` are the fields of `VtdRegisters.Dmar`. `setup_vm` and `smp_init` are left out: they are environment setup.
- VtdRegisters.Dmar.WaitStatus: the termination of the status poll depends on the hardware. The model assumes a unit that takes a persistent command up after a finite number of status reads (`latency`). A unit that never acknowledges is not modelled.
- Pci.PciDev.CapWalk: requires a capability chain that reaches a zero pointer within `CAP_CHAIN_FUEL` (256) hops. The source does not guard against a cyclic chain. A chain that ends at all ends within 255 hops, because every offset it visits is a distinct nonzero byte.
- Pci.HandlerFor: the source indexes `cap_handlers` by any 8-bit capability id, although the table ends at `PCI_CAP_ID_MAX`. The model gives every id but MSI no handler, and does not model reading past the table.
- IntelIommu.Iommu.InstallPte models `level_target` 1 only, which is what `vtd_map_range` passes. The super-page branch (lines 153-155) is unreachable from it.
- IntelIommu.Iommu.MapRange: the translation is stated only for pages that no later page of the same range maps again. Such reuse happens only when the range is longer than 2^39 bytes, the window the 27 iova bits 12-38 cover. `MapPages` states the complete last-write-wins result through `Wanted`. The huge bit being clear is `MappedLeaf`.
- IntelIommu.Iommu.SetupIrte and IntelIommu.Iommu.SetupMsi require an index below 256, the entries of the one page the IR table has (see Findings).
- The assertions that abort the program in the source are preconditions in the model:
  - `set & clr` disjoint;
  - a single command bit;
  - the counter below 65535;
  - iova, pa and size aligned.
- The `assert(dev)` null checks have no counterpart, because a reference in the model is never null.
- Left out, as outside this code:
  - translation-cache invalidation;
  - extended root tables;
  - buses other than 0 (`pci_find_dev` scans devfn 0-255 of bus 0 only);
  - address widths other than 39 bits.
- The configuration log records writes only. Reads change nothing and are not logged.

## Findings

| source | as written | input that shows it | evidently intended | confidence | as-written member | corrected member |
|---|---|---|---|---|---|---|
| lib/pci.c:315-317 | a 64-bit BAR advances `i` and zeroes `bar[i]` with no bound check | BAR5 reads 0x4 (64-bit memory type) and BARs 0-4 read all-ones: the scan stores into `bar[6]` of the six-slot array | the upper half is zeroed only when it exists (`i + 1 < PCI_BAR_NUM`) | not executed | Pci.ScanOverflowsOnLastBar | Pci.PciDev.ScanBars |
| lib/x86/intel-iommu.c:158-159 | `VTD_FETCH_VIRT_ADDR` shifts the frame number right by the page shift (used at lines 195 and 216) | a present root entry naming the context table at frame 1 (page 0x1000) is fetched as address 0 | the frame is shifted left by the page shift, giving the page the entry names | not executed | VtdDescriptors.FetchVirtAddrMissesPage | IntelIommu.Iommu.ContextTableFor |
| lib/x86/intel-iommu.c:125-129 | the IR table is one 4 KiB page (256 entries), while its size field declares 2^16 entries and the allocator admits indices up to 65534 (line 232) | index 256 passes the allocator's check; its entry's words 512 and 513 lie past the page's 512 words | every index the allocator hands out names an entry inside the table | not executed | IntelIommu.IrIndexBeyondPage | IntelIommu.Iommu.SetupIrte |
