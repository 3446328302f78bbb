# Verified models of the Wallace bring-up sources

Wallace brings Linux up on Apple t6040 hardware. It holds the host tools that build and check what is
booted, and pinned copies of the kernel drivers they rely on. This project models the parts of both
that are hardest to get right and proves what they are for. `dafny verify dfyconfig.toml` checks all
of it.

| file | models |
|---|---|
| `PrpFormat.dfy`, `NvmeRequest.dfy`, `NvmeTraffic.dfy` | the ANS NVMe driver's PRP lists: construction, meaning to the device, release on every path, many requests at once |
| `CompletionRing.dfy` | the phase-tagged completion ring as a machine of submit, post, handle and advance steps, and the driver's poll loop on it |
| `RegCache.dfy`, `RegMap.dfy`, `BlockSync.dfy` | the register cache: runs of writes, resets, syncs and failures; the sync loops; the coalescing block sync |
| `CpuFeatures.dfy`, `IdregOverride.dfy`, `CpuCaps.dfy` | arm64 feature registers over any sequence of CPUs, command-line overrides, capabilities |
| `BootObject.dfy`, `BootVerify.dfy`, `BootBuild.dfy`, `BootExample.dfy` | the raw boot object: payload scan, strict verification, builder, one object that passes |
| `Newc.dfy` | the newc archive writer and parser |
| `Crc32.dfy`, `CrcPoly.dfy`, `UsbRootGate.dfy`, `UsbRootDisk.dfy` | the GPT gate in front of a USB root disk, what its CRC is, and disks that pass |
| `DockChannel.dfy`, `DchidFrame.dfy`, `DchidAck.dfy` | the DockChannel FIFOs, HID framing and the command/ACK protocol |
| `Sart.dfy` | the SART DMA filter |
| `Arith.dfy`, `Bytes.dfy`, `Seqs.dfy`, `Words.dfy`, `Wrappers.dfy` | division facts, little-endian bytes, sequences as sets, registers as sets of bit positions, `Option` |

Code that updates state in place is a class whose methods are proved equal to specification functions
or to the steps of a machine; the theorems are about those functions and about every run of the
machine. What the environment decides (which allocation fails, how a FIFO drains, which write fails,
how a read is cut short) is a parameter, quantified over. Gzip and XZ are a parameter too: the only
thing asked of a member is that decoding it in front of any bytes consumes the member and leaves
those bytes (`BootExample.CodecExists` exhibits a codec that does).

Where the code departs from what its comments promise:

- **Register cache.** A clean cache is meant to equal the chip. It does not always: a register written
  live after a reset and then set back to its default in cache-only mode is skipped by the next sync
  and stays wrong, with the dirty flag cleared. `RegCache.StrandedRun` is such a run;
  `RegCache.CoherentIffNotStranded` gives the exact condition for one sync. A live write the bus fails
  can set cache and chip apart as well; `RegCache.WriteExact` says exactly when. These two are all:
  `RegCache.CleanMeansEqual` shows that a run keeps the promise throughout if and only if it has
  neither.
- **SART.** The address register holds 32 bits of page number and nothing checks an address against
  it: `Sart.AddThenRemove` shows that a region can be taken back if and only if its address is in
  range, and `Sart.OutOfRangeLost` is one that cannot. The empty region at address zero is accepted
  and may stay active when it is removed (`Sart.EmptyRegionStuck`). `sart_set_entry` shifts the address by the size shift and the size by the address shift; both
  are 12, so the model has one constant.
- **HID frames.** The length field has sixteen bits and is not checked: `DchidFrame.FrameArrives` holds
  if and only if the rounded size plus 8 fits, and `DchidFrame.LongMessageLost` is a message that does
  not arrive.
- **newc.** Python's base-16 conversion lets signs through, so a crafted size can send the parser back.
  It still ends on every input (`Newc.ParseNewc`), because an entry met twice is a duplicate name.
- **Boot object.** A wrapped initramfs is compared together with its wrapper, so strict verification
  of an object built with a wrapped blob needs the wrapped member, not the blob, as the expected
  artifact; `BootBuild.BuiltAccepted` states exactly which requests are met. The builder does not
  enforce the verifier's limits (1024 bytes of boot arguments, 40 bytes of DTB, expansion sizes);
  the same lemma shows they are exactly what separates acceptance from refusal.

## Model

| member | source | states |
|---|---|---|
| `PrpFormat.PagesDenoteBytes` | evidence/2026-10-24-upstream-convergence/sources/asahi--drivers__nvme__host__apple.c:452-535 | For every scatter list obeying the page-boundary rule, the page sequence names, for each k, the same bus address as byte k of the scatter list: reading PRP entries page by page is reading the list |
| `PrpFormat.PageCountOfSgl` | evidence/2026-10-24-upstream-convergence/sources/asahi--drivers__nvme__host__apple.c:452-486 | The number of pages the device computes from prp1 and the transfer length is the number of pages the scatter list has |
| `PrpFormat.RestCount` | evidence/2026-10-24-upstream-convergence/sources/asahi--drivers__nvme__host__apple.c:488-489 | The driver's rounded-up entry count is exactly the number of pages left at the cursor, so the choice between the small and the page pool is right |
| `PrpFormat.AfterFirstPage` | evidence/2026-10-24-upstream-convergence/sources/asahi--drivers__nvme__host__apple.c:468-486 | After the first page, the data has ended or the cursor stands on the rest of the first segment or on the second segment, with the page sequence split accordingly |
| `PrpFormat.AfterPage` | evidence/2026-10-24-upstream-convergence/sources/asahi--drivers__nvme__host__apple.c:518-530 | One page later the data ends, the segment goes on, or it ends exactly at its end while another follows: a negative remainder, the bad_sgl branch, cannot happen |
| `PrpFormat.ChainedLink` | evidence/2026-10-24-upstream-convergence/sources/asahi--drivers__nvme__host__apple.c:507-517 | Linking a new list page moves the last entry over and loses and duplicates none |
| `PrpFormat.DecodeChained` | evidence/2026-10-24-upstream-convergence/sources/asahi--drivers__nvme__host__apple.c:506-531 | A device that follows the links of a chain of list pages reads back exactly the entries written, from any page on |
| `PrpFormat.DecodeWhole` | evidence/2026-10-24-upstream-convergence/sources/asahi--drivers__nvme__host__apple.c:532-535 | prp1, prp2 and the list decode to the whole page sequence for one, two and more pages |
| `PrpFormat.AlignedFits` | evidence/2026-10-24-upstream-convergence/sources/asahi--drivers__nvme__host__apple.c:1600-1612 | Pool elements aligned to their size never cross a controller page, so a list's link is where the device looks for it |
| `NvmeRequest.ListPagesOf` | evidence/2026-10-24-upstream-convergence/sources/asahi--drivers__nvme__host__apple.c:488-517 | The builder uses exactly as many list pages as the entry count calls for; running dry means that more were needed |
| `NvmeRequest.DmaPools.Alloc` | evidence/2026-10-24-upstream-convergence/sources/asahi--drivers__nvme__host__apple.c:497-513 | Allocation adds one outstanding buffer at an unused DMA address |
| `NvmeRequest.DmaPools.Free` | evidence/2026-10-24-upstream-convergence/sources/asahi--drivers__nvme__host__apple.c:401-415 | A free demands an outstanding buffer with its own address and its own pool, and removes exactly that one |
| `NvmeRequest.Iod.FreePrps` | evidence/2026-10-24-upstream-convergence/sources/asahi--drivers__nvme__host__apple.c:401-415 | Walking the links the builder wrote frees every list page once, each with its own DMA address: the pools are as before the request |
| `NvmeRequest.Iod.FirstBuffer` | evidence/2026-10-24-upstream-convergence/sources/asahi--drivers__nvme__host__apple.c:488-505 | The first list buffer comes from the small pool exactly when all entries fit there; failure leaves the pools and npages untouched |
| `NvmeRequest.Iod.LinkPage` | evidence/2026-10-24-upstream-convergence/sources/asahi--drivers__nvme__host__apple.c:507-517 | One more linked page keeps the entries written so far in order across the chain |
| `NvmeRequest.Iod.StoreEntry` | evidence/2026-10-24-upstream-convergence/sources/asahi--drivers__nvme__host__apple.c:507-518 | Appends one entry, staying inside the 32- or 512-entry buffer; a dry pool gives everything back |
| `NvmeRequest.Iod.WriteList` | evidence/2026-10-24-upstream-convergence/sources/asahi--drivers__nvme__host__apple.c:505-531 | The entry loop writes exactly the pages from the cursor on, or fails with the pools restored, and fails only when the page pool was too small |
| `NvmeRequest.Iod.BuildList` | evidence/2026-10-24-upstream-convergence/sources/asahi--drivers__nvme__host__apple.c:488-538 | Allocation and writing of a list: succeeds exactly when the pools grant what the count needs, takes exactly the first buffers granted, and the list decodes to the remaining pages |
| `NvmeRequest.Iod.SetupPrps` | evidence/2026-10-24-upstream-convergence/sources/asahi--drivers__nvme__host__apple.c:452-544 | For every well-formed scatter list: success exactly when the needed buffers are granted, taking just those; prp1/prp2 then decode to the scatter list's pages; failure restores the pools; an I/O error is impossible |
| `NvmeRequest.Iod.SetupPrpSimple` | evidence/2026-10-24-upstream-convergence/sources/asahi--drivers__nvme__host__apple.c:546-564 | The one-segment shortcut denotes the same pages as the general construction would, in any memory, and keeps the mapping's address and length for the unmap |
| `NvmeRequest.Iod.MapData` | evidence/2026-10-24-upstream-convergence/sources/asahi--drivers__nvme__host__apple.c:566-606 | Succeeds exactly if the shortcut's mapping does, or scatterlist, mapping and list buffers are all granted; the command then denotes the request's pages in every memory that holds its list buffers; a failure leaves nothing held |
| `NvmeRequest.Iod.UnmapData` | evidence/2026-10-24-upstream-convergence/sources/asahi--drivers__nvme__host__apple.c:417-436 | Unmap after a successful map brings the pools back to exactly what they were and releases scatterlist and mappings |
| `NvmeRequest.Regrow` | evidence/2026-10-24-upstream-convergence/sources/asahi--drivers__nvme__host__apple.c:401-436 | Buffers that are all still outstanding can be released whatever was allocated and freed in between |
| `NvmeTraffic.MappedOwns` | evidence/2026-10-24-upstream-convergence/sources/asahi--drivers__nvme__host__apple.c:566-606 | What mapping added to the pools is exactly what the request owns |
| `NvmeTraffic.Undisturbed` | evidence/2026-10-24-upstream-convergence/sources/asahi--drivers__nvme__host__apple.c:401-436 | A request in flight keeps its buffers and its command's meaning while others come and go |
| `NvmeTraffic.BooksUnmap` | evidence/2026-10-24-upstream-convergence/sources/asahi--drivers__nvme__host__apple.c:417-436 | Releasing one request's buffers, in any order, leaves the others' and nothing else |
| `NvmeTraffic.Attach` | evidence/2026-10-24-upstream-convergence/sources/asahi--drivers__nvme__host__apple.c:566-606 | Mapping one request among others succeeds exactly if all it needs is granted and takes exactly the addresses its page count calls for |
| `NvmeTraffic.Driver.MapRequest` | evidence/2026-10-24-upstream-convergence/sources/asahi--drivers__nvme__host__apple.c:566-606 | One more request among any number: mapped exactly if all it needs is granted, entered in the ledger with what it takes, disjoint from the rest; otherwise nothing changes |
| `NvmeTraffic.Driver.UnmapRequest` | evidence/2026-10-24-upstream-convergence/sources/asahi--drivers__nvme__host__apple.c:417-436 | Any request in flight can complete next; ledger and pools shrink by exactly what it held |
| `NvmeTraffic.LastMapHolds` | evidence/2026-10-24-upstream-convergence/sources/asahi--drivers__nvme__host__apple.c:401-606 | By the script alone: a request is mapped in the end exactly if some operation mapped it and none after that unmapped it, and it holds what that operation took |
| `NvmeTraffic.Driver.Perform` | evidence/2026-10-24-upstream-convergence/sources/asahi--drivers__nvme__host__apple.c:401-606 | One map or unmap on the driver's objects refines one step of the ledger |
| `NvmeTraffic.Driver.Serve` | evidence/2026-10-24-upstream-convergence/sources/asahi--drivers__nvme__host__apple.c:401-606 | For every script of maps and unmaps of many requests in any order, with any allocation failing: the ledger is the one the script determines, the pools hold what they held before plus exactly the ledger's addresses, and the command of each mapped request decodes to its pages |
| `CompletionRing.PlaceAhead` | evidence/2026-10-24-upstream-convergence/sources/asahi--drivers__nvme__host__apple.c:668-678 | Slot and phase k completions on: same lap or next, for both sides' arithmetic |
| `CompletionRing.InitInv` | evidence/2026-10-24-upstream-convergence/sources/asahi--drivers__nvme__host__apple.c:1060-1073 | Queue initialisation (cleared ring, head 0, phase 1) satisfies the ring invariant |
| `CompletionRing.TagLimit` | evidence/2026-10-24-upstream-convergence/sources/asahi--drivers__nvme__host__apple.c:1338-1371 | Unconsumed entries and commands in flight together stay below the ring depth, because a tag set is one smaller than its ring |
| `CompletionRing.TagsUsable` | evidence/2026-10-24-upstream-convergence/sources/asahi--drivers__nvme__host__apple.c:1338-1371 | The limit is no tighter than that: all tags but one of the depth can be in use at once |
| `CompletionRing.HeadIsOldest` | evidence/2026-10-24-upstream-convergence/sources/asahi--drivers__nvme__host__apple.c:628-634 | The head shows a new entry if and only if a posted entry is unhandled, and it is then the oldest one: no stale slot is taken for new, none is overlooked |
| `CompletionRing.PostInv` | evidence/2026-10-24-upstream-convergence/sources/asahi--drivers__nvme__host__apple.c:628-678 | A device post keeps the invariant: it never overwrites an entry the host has not taken |
| `CompletionRing.HandleInv` | evidence/2026-10-24-upstream-convergence/sources/asahi--drivers__nvme__host__apple.c:644-666 | Handling completes the oldest posted request and no other |
| `CompletionRing.AdvanceInv` | evidence/2026-10-24-upstream-convergence/sources/asahi--drivers__nvme__host__apple.c:668-678 | Moving the head, with its phase flip at the wrap, keeps the invariant |
| `CompletionRing.StepInv` | evidence/2026-10-24-upstream-convergence/sources/asahi--drivers__nvme__host__apple.c:628-717 | Every step of submit, post, handle and advance keeps the invariant |
| `CompletionRing.RunInv` | evidence/2026-10-24-upstream-convergence/sources/asahi--drivers__nvme__host__apple.c:628-717 | Every reachable state satisfies the invariant |
| `CompletionRing.ExactlyOnceInOrder` | evidence/2026-10-24-upstream-convergence/sources/asahi--drivers__nvme__host__apple.c:628-717 | In every interleaving and across any number of wraps: handled requests are a prefix of posted ones, none twice, none for an unknown tag; at most depth - 1 are waiting; an idle head means none is |
| `CompletionRing.HistoryGrows` | evidence/2026-10-24-upstream-convergence/sources/asahi--drivers__nvme__host__apple.c:680-701 | Later steps only append to what was posted and handled |
| `CompletionRing.Queue.constructor` | evidence/2026-10-24-upstream-convergence/sources/asahi--drivers__nvme__host__apple.c:1060-1073 | The queue object starts as the machine's initial state |
| `CompletionRing.Queue.CqePending` | evidence/2026-10-24-upstream-convergence/sources/asahi--drivers__nvme__host__apple.c:628-634 | Returns true exactly when a posted entry waits |
| `CompletionRing.Queue.SubmitRequest` | evidence/2026-10-24-upstream-convergence/sources/asahi--drivers__nvme__host__apple.c:813-864 | A request put under a free tag refines the submit step |
| `CompletionRing.Queue.DevicePost` | evidence/2026-10-24-upstream-convergence/sources/asahi--drivers__nvme__host__apple.c:628-678 | The device's write of an entry at its tail, whenever it works on the tag, refines the post step |
| `CompletionRing.Queue.HandleCqe` | evidence/2026-10-24-upstream-convergence/sources/asahi--drivers__nvme__host__apple.c:644-666 | Reads the command id in the slot, looks the request up by tag and completes it or warns; this is the handle step, the request is always found, and it is the oldest one posted |
| `CompletionRing.Queue.UpdateCqHead` | evidence/2026-10-24-upstream-convergence/sources/asahi--drivers__nvme__host__apple.c:668-678 | Refines the advance step on head and phase |
| `CompletionRing.Queue.PollCq` | evidence/2026-10-24-upstream-convergence/sources/asahi--drivers__nvme__host__apple.c:680-701 | With the device posting between any two looks: the loop ends, completes in posting order all that was posted and warns of nothing, reports whether it found any, and writes the doorbell with the new head exactly then |
| `RegCache.SyncFromChip` | evidence/2026-10-24-upstream-convergence/sources/asahi--drivers__base__regmap__regcache.c:359-393 | After a successful default sync every register in range that is cached, writeable, not volatile and not skipped holds its cached value, and every other register what it held before |
| `RegCache.SyncFromOutcome` | evidence/2026-10-24-upstream-convergence/sources/asahi--drivers__base__regmap__regcache.c:359-393 | A default sync fails exactly if it comes by a register whose cache read or needed write fails, and gives up at the first one: those before are synced, those after untouched |
| `RegCache.SyncRegionExact` | evidence/2026-10-24-upstream-convergence/sources/asahi--drivers__base__regmap__regcache.c:504-548 | A region sync leaves the chip alone if the cache is clean; otherwise it succeeds exactly if no register of the region fails, and the chip then holds what is owed all over the region and what it held before elsewhere |
| `RegCache.SyncSucceeds` | evidence/2026-10-24-upstream-convergence/sources/asahi--drivers__base__regmap__regcache.c:411-458 | A full sync succeeds exactly if the cache is clean, or no patch register and no register of the whole map fails |
| `RegCache.PatchReaches` | evidence/2026-10-24-upstream-convergence/sources/asahi--drivers__base__regmap__regcache.c:435-444 | All patch values reach the chip exactly if none of their registers fails; the chip then holds the last one given for each and nothing else is touched |
| `RegCache.PatchFrame` | evidence/2026-10-24-upstream-convergence/sources/asahi--drivers__base__regmap__regcache.c:435-444 | Patch writes touch no cached register and no flag |
| `RegCache.SyncExact` | evidence/2026-10-24-upstream-convergence/sources/asahi--drivers__base__regmap__regcache.c:411-458 | After a successful full sync of a dirty cache, a writeable register agrees with the cache if and only if it was not stranded (cached at its default after a different live write since the reset) |
| `RegCache.SyncInv` | evidence/2026-10-24-upstream-convergence/sources/asahi--drivers__base__regmap__regcache.c:411-458 | A full sync keeps the invariant, clears dirty exactly when it succeeded and changes nothing when the cache was clean |
| `RegCache.WriteExact` | evidence/2026-10-24-upstream-convergence/sources/asahi--drivers__base__regmap__regcache.c:326-338 | A user write, live or cached, failing or not, keeps a clean cache equal to the chip exactly if it is not torn: a failed live write that leaves different values on the two sides |
| `RegCache.WriteChip` | evidence/2026-10-24-upstream-convergence/sources/asahi--drivers__base__regmap__regcache.c:594-610 | What a user write leaves in the chip, register by register, live or cache-only, failing or not |
| `RegCache.WriteCache` | evidence/2026-10-24-upstream-convergence/sources/asahi--drivers__base__regmap__regcache.c:326-338 | What a user write leaves in the cache, register by register; never a volatile register |
| `RegCache.WriteFlags` | evidence/2026-10-24-upstream-convergence/sources/asahi--drivers__base__regmap__regcache.c:594-610 | Only a cache-only write makes the cache dirty |
| `RegCache.DropMeans` | evidence/2026-10-24-upstream-convergence/sources/asahi--drivers__base__regmap__regcache.c:562-592 | Dropping a region forgets exactly its registers and touches neither chip nor flags |
| `RegCache.ApplyInv` | evidence/2026-10-24-upstream-convergence/sources/asahi--drivers__base__regmap__regcache.c:340-624 | Every operation, with reads and writes failing anywhere, keeps the invariant: while defaults may be skipped, the chip holds what reached it since the reset over its reset values |
| `RegCache.ApplyCoherent` | evidence/2026-10-24-upstream-convergence/sources/asahi--drivers__base__regmap__regcache.c:411-548 | Every step keeps a clean cache equal to the chip if and only if it is neither a torn write nor a successful sync of a dirty cache over a stranded register |
| `RegCache.RunInv` | evidence/2026-10-24-upstream-convergence/sources/asahi--drivers__base__regmap__regcache.c:340-624 | The invariant holds after every run |
| `RegCache.CleanMeansEqual` | evidence/2026-10-24-upstream-convergence/sources/asahi--drivers__base__regmap__regcache.c:411-458 | For every run: a cache that is not dirty equals the chip on every cached writeable register at all points of the run, if and only if no step is a torn write or a successful sync of a dirty cache over a stranded register |
| `RegCache.CoherentIffNotStranded` | evidence/2026-10-24-upstream-convergence/sources/asahi--drivers__base__regmap__regcache.c:340-393 | After any run, a successful sync of a dirty cache restores agreement if and only if no writeable register is stranded: the exact condition under which the promise holds |
| `RegCache.SkipIsSound` | evidence/2026-10-24-upstream-convergence/sources/asahi--drivers__base__regmap__regcache.c:340-357 | Where a default would be skipped, the chip holds the cached value if and only if the register is not stranded |
| `RegCache.StrandedRun` | evidence/2026-10-24-upstream-convergence/sources/asahi--drivers__base__regmap__regcache.c:340-357 | A concrete run in which the promise fails: reset, live write of 5, cache-only write of the default 0, sync; the clean cache says 0 and the chip holds 5 |
| `RegMap.SortSorts` | evidence/2026-10-24-upstream-convergence/sources/asahi--drivers__base__regmap__regcache.c:38-43 | Sorting the defaults table orders it by register and keeps its entries |
| `RegMap.InitDefaults` | evidence/2026-10-24-upstream-convergence/sources/asahi--drivers__base__regmap__regcache.c:154-210 | A table with a misaligned register is refused, and only such a one; otherwise the result is sorted and holds the same entries |
| `RegMap.LookupReg` | evidence/2026-10-24-upstream-convergence/sources/asahi--drivers__base__regmap__regcache.c:739-754 | Binary search returns an entry of the register or, exactly when there is none, nothing |
| `RegMap.Map.RegNeedsSync` | evidence/2026-10-24-upstream-convergence/sources/asahi--drivers__base__regmap__regcache.c:340-357 | Decides, through the binary search, whether the register is writeable and not skipped as a default |
| `RegMap.Map.DefaultSync` | evidence/2026-10-24-upstream-convergence/sources/asahi--drivers__base__regmap__regcache.c:359-393 | The loop over a range does what the specified sync does, including where it stops on an error, and does not leave the bypass on |
| `RegMap.Map.SyncAll` | evidence/2026-10-24-upstream-convergence/sources/asahi--drivers__base__regmap__regcache.c:411-458 | Full sync: patch, registers, flags; dirty cleared only on success, defaults no longer skipped and the bypass restored on every path |
| `RegMap.Map.SyncRange` | evidence/2026-10-24-upstream-convergence/sources/asahi--drivers__base__regmap__regcache.c:504-548 | Region sync: never clears dirty, stops skipping defaults, restores the bypass |
| `RegMap.Map.MarkDirty` | evidence/2026-10-24-upstream-convergence/sources/asahi--drivers__base__regmap__regcache.c:618-624 | A reset announced by mark_dirty sets both flags |
| `BlockSync.Chip.SyncVal` | evidence/2026-10-24-upstream-convergence/sources/asahi--drivers__base__regmap__regcache.c:764-786 | One value: written exactly when it needs syncing, failing exactly when that write fails |
| `BlockSync.Chip.SyncBlockSingle` | evidence/2026-10-24-upstream-convergence/sources/asahi--drivers__base__regmap__regcache.c:788-810 | One register at a time: the chip takes the owed writes up to the first that fails, all of them exactly if none does |
| `BlockSync.Chip.Flush` | evidence/2026-10-24-upstream-convergence/sources/asahi--drivers__base__regmap__regcache.c:812-838 | A flush writes the pending run's values to consecutive registers, or fails exactly if one of them is bad, having written no further than the one before |
| `BlockSync.Chip.SyncBlockRaw` | evidence/2026-10-24-upstream-convergence/sources/asahi--drivers__base__regmap__regcache.c:840-880 | Coalescing: for every bitmap, writeability, default table and set of failing registers it succeeds exactly if one at a time does, with the same register/value writes in the same order; on failure the chip has taken a prefix of what one at a time would have written |
| `BlockSync.FlushIsPending` | evidence/2026-10-24-upstream-convergence/sources/asahi--drivers__base__regmap__regcache.c:812-838 | The count computed from the two register numbers is the number of values gathered |
| `BlockSync.OwedExactly` | evidence/2026-10-24-upstream-convergence/sources/asahi--drivers__base__regmap__regcache.c:788-810 | The owed writes are exactly the present, writeable, not skipped values, each once, in increasing register order |
| `Sart.ReadBack` | evidence/2026-10-24-upstream-convergence/sources/asahi--drivers__soc__apple__sart.c:86-169 | For each register layout: flags and size read back, the address cut to its field, so the region reads back if and only if its address is in range |
| `Sart.RawLayout` | evidence/2026-10-24-upstream-convergence/sources/asahi--drivers__soc__apple__sart.c:98-169 | Which register and which bits hold flags, address and size of a written slot |
| `Sart.ShownRegion` | evidence/2026-10-24-upstream-convergence/sources/asahi--drivers__soc__apple__sart.c:86-161 | The region any slot shows, whatever is in its registers |
| `Sart.VersionLimits` | evidence/2026-10-24-upstream-convergence/sources/asahi--drivers__soc__apple__sart.c:248-264 | The flags of an allowed slot and the largest acceptable region of each version, in numbers |
| `Sart.ClearedReads` | evidence/2026-10-24-upstream-convergence/sources/asahi--drivers__soc__apple__sart.c:248-264 | A cleared slot reads as no flags and an empty region |
| `Sart.ProbeInv` | evidence/2026-10-24-upstream-convergence/sources/asahi--drivers__soc__apple__sart.c:197-211 | Probing leaves the bootloader's slots protected, nothing live, and the invariant true, whatever stale contents the registers hold |
| `Sart.ProtectedBits` | evidence/2026-10-24-upstream-convergence/sources/asahi--drivers__soc__apple__sart.c:197-211 | A slot is protected exactly if one of its flag bits is set, bit by bit for each version |
| `Sart.FreeFrom` | evidence/2026-10-24-upstream-convergence/sources/asahi--drivers__soc__apple__sart.c:266-298 | The slot taken is the first neither protected nor used; none only if all are taken |
| `Sart.MatchFrom` | evidence/2026-10-24-upstream-convergence/sources/asahi--drivers__soc__apple__sart.c:300-333 | The slot removed is the first unprotected one that shows the region |
| `Sart.AddCorrect` | evidence/2026-10-24-upstream-convergence/sources/asahi--drivers__soc__apple__sart.c:266-298 | For every region: an add succeeds exactly if a slot is free and the region is aligned and small enough; then the live regions grow by it as the registers hold it, otherwise nothing changes; protected slots never change |
| `Sart.MatchIsLive` | evidence/2026-10-24-upstream-convergence/sources/asahi--drivers__soc__apple__sart.c:300-333 | A remove picks a used slot if the region is live, although unused slots may show stale regions; only for the empty region at zero may it pick a cleared one |
| `Sart.RemoveCorrect` | evidence/2026-10-24-upstream-convergence/sources/asahi--drivers__soc__apple__sart.c:300-333 | Removing a live region succeeds and takes exactly one copy of it off the live regions, anything else leaves them alone; for the empty region at zero exactly if the first slot showing it is in use |
| `Sart.AddThenRemove` | evidence/2026-10-24-upstream-convergence/sources/asahi--drivers__soc__apple__sart.c:266-333 | A region added is removed again, restoring the live regions, if and only if its address is in range of the register |
| `Sart.OutOfRangeLost` | evidence/2026-10-24-upstream-convergence/sources/asahi--drivers__soc__apple__sart.c:248-333 | A concrete region past the register's range that is added and cannot be removed |
| `Sart.EmptyRegionStuck` | evidence/2026-10-24-upstream-convergence/sources/asahi--drivers__soc__apple__sart.c:266-333 | A concrete run after which the empty region at zero stays active although its removal reported success |
| `Sart.RunCorrect` | evidence/2026-10-24-upstream-convergence/sources/asahi--drivers__soc__apple__sart.c:197-333 | Over every run that does not remove the empty region at zero while it is live: bootloader slots as probed, live regions as a plain multiset bookkeeping predicts, active slots exactly those two kinds |
| `Sart.Device.constructor` | evidence/2026-10-24-upstream-convergence/sources/asahi--drivers__soc__apple__sart.c:197-211 | The probe scan protects exactly the slots with flags set |
| `Sart.Device.SetChecked` | evidence/2026-10-24-upstream-convergence/sources/asahi--drivers__soc__apple__sart.c:248-264 | Refuses misaligned or oversized regions without touching a register, else writes that slot only |
| `Sart.Device.AddAllowedRegion` | evidence/2026-10-24-upstream-convergence/sources/asahi--drivers__soc__apple__sart.c:266-298 | Register-level add equals the specified one, including taking the used bit back on refusal |
| `Sart.Device.RemoveAllowedRegion` | evidence/2026-10-24-upstream-convergence/sources/asahi--drivers__soc__apple__sart.c:300-333 | Register-level remove equals the specified one |
| `DockChannel.TxFifo.Push` | evidence/2026-10-24-upstream-convergence/sources/asahi--drivers__soc__apple__dockchannel.c:132-142 | A push demands room, so the FIFO cannot overfill, and appends to the stream |
| `DockChannel.TxFifo.Wait` | evidence/2026-10-24-upstream-convergence/sources/asahi--drivers__soc__apple__dockchannel.c:116-130 | Waiting happens on a full FIFO only, consumes one tick of the other side and is woken exactly if that tick wakes; otherwise a timeout is counted |
| `DockChannel.TxFifo.Send` | evidence/2026-10-24-upstream-convergence/sources/asahi--drivers__soc__apple__dockchannel.c:107-146 | For every pattern of draining: success pushes exactly the buffer in order, failure a proper prefix; it fails exactly by one wait that times out, whose tick was the last consumed and did not wake or which found none left, and never if the buffer fits or the other side drains something at each of two accesses a byte |
| `DockChannel.MissedAtEnd` | evidence/2026-10-24-upstream-convergence/sources/asahi--drivers__soc__apple__dockchannel.c:107-188 | If every sleeper is woken, a transfer can time out only when the other side does nothing more |
| `DockChannel.RxFifo.Pull` | evidence/2026-10-24-upstream-convergence/sources/asahi--drivers__soc__apple__dockchannel.c:174-184 | A pull demands data and takes the oldest bytes |
| `DockChannel.RxFifo.Wait` | evidence/2026-10-24-upstream-convergence/sources/asahi--drivers__soc__apple__dockchannel.c:158-172 | Waiting happens on an empty FIFO only, consumes one tick of the other side and is woken exactly if that tick wakes; otherwise a timeout is counted |
| `DockChannel.RxFifo.Recv` | evidence/2026-10-24-upstream-convergence/sources/asahi--drivers__soc__apple__dockchannel.c:149-188 | For every pattern of filling: the buffer is the next bytes of the stream, failure a proper prefix of them; it fails exactly by one wait that times out, whose tick was the last consumed and did not wake or which found none left, and never if the bytes are there, or are to come and the other side is lively |
| `DchidFrame.Checksum` | evidence/2026-10-24-upstream-convergence/sources/asahi--drivers__hid__dockchannel-hid__dockchannel-hid.c:254-266 | The running-sum loop computes the sum of little-endian words modulo 2^32 |
| `DchidFrame.HeaderParts` | evidence/2026-10-24-upstream-convergence/sources/asahi--drivers__hid__dockchannel-hid__dockchannel-hid.c:274-286 | Every byte of header and sub-header: lengths, channel, sequence number, interface, flags, size, and zeros elsewhere |
| `DchidFrame.SumConcat` | evidence/2026-10-24-upstream-convergence/sources/asahi--drivers__hid__dockchannel-hid__dockchannel-hid.c:254-313 | Summing piece by piece equals summing the whole when pieces are whole words |
| `DchidFrame.FrameSums` | evidence/2026-10-24-upstream-convergence/sources/asahi--drivers__hid__dockchannel-hid__dockchannel-hid.c:268-313 | Header plus body plus trailer sums to 0xffffffff however the receiver splits it |
| `DchidFrame.SendBody` | evidence/2026-10-24-upstream-convergence/sources/asahi--drivers__hid__dockchannel-hid__dockchannel-hid.c:279-306 | Header, whole words and padded tail go out in order while the checksum runs along; only a wait that times out stops it, after a proper prefix |
| `DchidFrame.Send` | evidence/2026-10-24-upstream-convergence/sources/asahi--drivers__hid__dockchannel-hid__dockchannel-hid.c:268-313 | The stream grows by exactly the frame, or by a proper prefix if a wait timed out; none does if the frame fits the FIFO or the other side is lively |
| `DchidFrame.HandlePacket` | evidence/2026-10-24-upstream-convergence/sources/asahi--drivers__hid__dockchannel-hid__dockchannel-hid.c:1021-1051 | The verdict is the one the byte stream deserves unless exactly one wait timed out, as the last thing that happened; none does if the packet is in the FIFO already or the other side is lively, whatever its pace; an accepted packet is consumed entirely |
| `DchidFrame.ParseExactly` | evidence/2026-10-24-upstream-convergence/sources/asahi--drivers__hid__dockchannel-hid__dockchannel-hid.c:1029-1051 | Which byte streams start with a packet, which have a bad header and which a bad checksum, and what the packet is |
| `DchidFrame.SumDiffers` | evidence/2026-10-24-upstream-convergence/sources/asahi--drivers__hid__dockchannel-hid__dockchannel-hid.c:254-266 | One changed byte changes the sum exactly if it lies in a whole word |
| `DchidFrame.DamageCaught` | evidence/2026-10-24-upstream-convergence/sources/asahi--drivers__hid__dockchannel-hid__dockchannel-hid.c:1044-1051 | A packet with one byte damaged outside the length field is accepted exactly if the byte is in a tail shorter than a word, which the sum leaves out |
| `DchidFrame.FrameArrives` | evidence/2026-10-24-upstream-convergence/sources/asahi--drivers__hid__dockchannel-hid__dockchannel-hid.c:268-313 | The receiver gets a packet with the command's sequence number, interface, flags and size, exactly the message and zero padding, past the checksum test, if and only if the rounded size plus 8 fits sixteen bits |
| `DchidFrame.LongMessageLost` | evidence/2026-10-24-upstream-convergence/sources/asahi--drivers__hid__dockchannel-hid__dockchannel-hid.c:282-282 | A concrete message, 65528 zero bytes, whose length field wraps to zero and which does not arrive |
| `DchidAck.StepInv` | evidence/2026-10-24-upstream-convergence/sources/asahi--drivers__hid__dockchannel-hid__dockchannel-hid.c:315-357 | Every begin, ACK and finish keeps the command/ACK invariant |
| `DchidAck.RunInv` | evidence/2026-10-24-upstream-convergence/sources/asahi--drivers__hid__dockchannel-hid__dockchannel-hid.c:315-357 | The invariant holds in every run |
| `DchidAck.OneAckPerCommand` | evidence/2026-10-24-upstream-convergence/sources/asahi--drivers__hid__dockchannel-hid__dockchannel-hid.c:315-357 | In every run: at most one ACK is accepted per command, it carries that command's flags, sequence and report id, and a completed command reports that ACK's length and return code |
| `DchidAck.LateAckNeverMistaken` | evidence/2026-10-24-upstream-convergence/sources/asahi--drivers__hid__dockchannel-hid__dockchannel-hid.c:980-1019 | With a device that echoes sequence numbers, an ACK is accepted for its own command or for one at least 256 commands later |
| `DchidAck.WrapExactly` | evidence/2026-10-24-upstream-convergence/sources/asahi--drivers__hid__dockchannel-hid__dockchannel-hid.c:980-1019 | A late ACK with the waiting command's flags and report id is taken exactly when the sequence has come round |
| `DchidAck.Interface.BeginCommand` | evidence/2026-10-24-upstream-convergence/sources/asahi--drivers__hid__dockchannel-hid__dockchannel-hid.c:315-328 | Sets up the command's identity as the begin step does |
| `DchidAck.FlagsMean` | evidence/2026-10-24-upstream-convergence/sources/asahi--drivers__hid__dockchannel-hid__dockchannel-hid.c:325-325 | The group is in the top two bits of the flags and the request in the six below |
| `DchidAck.Interface.HandleAck` | evidence/2026-10-24-upstream-convergence/sources/asahi--drivers__hid__dockchannel-hid__dockchannel-hid.c:980-1019 | Accepts or drops an ACK as the ACK step does, and keeps the invariant |
| `DchidAck.Interface.FinishCommand` | evidence/2026-10-24-upstream-convergence/sources/asahi--drivers__hid__dockchannel-hid__dockchannel-hid.c:330-357 | Returns a length exactly if the send, the wait and the return code were good, and it is that of the ACK accepted for this very command; otherwise the error of the first step that failed; clean-up is the same on every path |
| `CpuFeatures.SetReads` | evidence/2026-10-24-upstream-convergence/sources/asahi--arch__arm64__kernel__cpufeature.c:927-935 | A field set in a register reads back as the value cut (and sign-extended) to the field |
| `CpuFeatures.SetLocal` | evidence/2026-10-24-upstream-convergence/sources/asahi--arch__arm64__kernel__cpufeature.c:927-935 | Setting a field leaves every disjoint field alone |
| `CpuFeatures.ValueMeans` | evidence/2026-10-24-upstream-convergence/sources/asahi--arch__arm64__kernel__cpufeature.c:1034-1035 | A field shows the number in its bits, in two's complement range and negative exactly with its top bit set if it is signed |
| `CpuFeatures.MergedUnique` | evidence/2026-10-24-upstream-convergence/sources/asahi--arch__arm64__kernel__cpufeature.c:937-961 | The closed form (minimum, maximum, zero-if-any-zero-else-maximum, common-else-safe) depends only on the set of values shown |
| `CpuFeatures.MergeStep` | evidence/2026-10-24-upstream-convergence/sources/asahi--arch__arm64__kernel__cpufeature.c:1262-1277 | Merging one more CPU's field keeps it equal to the closed form |
| `CpuFeatures.OverrideIsCpu` | evidence/2026-10-24-upstream-convergence/sources/asahi--arch__arm64__kernel__cpufeature.c:1032-1067 | An override accepted as safe counts as one more CPU showing its value |
| `CpuFeatures.UpdateFields` | evidence/2026-10-24-upstream-convergence/sources/asahi--arch__arm64__kernel__cpufeature.c:1262-1277 | A further CPU merges each field of the table independently of the others |
| `CpuFeatures.SystemIsMerged` | evidence/2026-10-24-upstream-convergence/sources/asahi--arch__arm64__kernel__cpufeature.c:1019-1087 | After any sequence of CPUs every field of the system register is the closed form over the values shown, and no bit outside the fields is set |
| `CpuFeatures.RefusedIsMoot` | evidence/2026-10-24-upstream-convergence/sources/asahi--arch__arm64__kernel__cpufeature.c:1037-1046 | An override refused as unsafe would not have changed the merge: the boot CPU's own value already takes precedence |
| `CpuFeatures.ShownIsEverything` | evidence/2026-10-24-upstream-convergence/sources/asahi--arch__arm64__kernel__cpufeature.c:1019-1087 | The merge after any boot is the closed form over all CPUs' values and the override, no matter which CPU booted |
| `CpuFeatures.OrderDoesNotMatter` | evidence/2026-10-24-upstream-convergence/sources/asahi--arch__arm64__kernel__cpufeature.c:1019-1277 | For every override, two boots with the same CPUs in any order, whichever boots first, end with the same system register, bit for bit |
| `CpuFeatures.AbsenceWins` | evidence/2026-10-24-upstream-convergence/sources/asahi--arch__arm64__kernel__cpufeature.c:1262-1277 | A signed lower-safe field whose top bit is set on any CPU, a missing feature, has it set in the system register |
| `CpuFeatures.OverridesSettle` | evidence/2026-10-24-upstream-convergence/sources/asahi--arch__arm64__kernel__cpufeature.c:1032-1067 | After boot-CPU initialisation each field's override is fully masked with a value accepted as safe, or gone from value and mask |
| `CpuFeatures.OverridesExact` | evidence/2026-10-24-upstream-convergence/sources/asahi--arch__arm64__kernel__cpufeature.c:1032-1067 | An override survives, with its value, exactly if its field was fully masked and the value is accepted against the boot CPU's |
| `CpuFeatures.MasksMean` | evidence/2026-10-24-upstream-convergence/sources/asahi--arch__arm64__kernel__cpufeature.c:1069-1087 | A bit is strict unless a non-strict field covers it; user space sees exactly the visible fields' bits |
| `CpuFeatures.HiddenFieldsSafe` | evidence/2026-10-24-upstream-convergence/sources/asahi--arch__arm64__kernel__cpufeature.c:1069-1087 | User space reads the safe value in every hidden field |
| `CpuFeatures.VisibleFieldsKept` | evidence/2026-10-24-upstream-convergence/sources/asahi--arch__arm64__kernel__cpufeature.c:1069-1087 | Visible fields keep their user value |
| `CpuFeatures.FtrReg.ApplyOverride` | evidence/2026-10-24-upstream-convergence/sources/asahi--arch__arm64__kernel__cpufeature.c:1032-1067 | The branch structure yields the field's boot value and the stripped override |
| `CpuFeatures.FtrReg.InitCpuFtrReg` | evidence/2026-10-24-upstream-convergence/sources/asahi--arch__arm64__kernel__cpufeature.c:1019-1087 | Boot-CPU initialisation computes the specified system value, override, masks and user value in one pass |
| `CpuFeatures.FtrReg.UpdateCpuFtrReg` | evidence/2026-10-24-upstream-convergence/sources/asahi--arch__arm64__kernel__cpufeature.c:1262-1277 | A further CPU's pass computes the specified merge of every field |
| `IdregOverride.MatchKnown` | evidence/2026-10-24-upstream-convergence/sources/idreg-override.c:286-332 | Matching one option, with the filters' effects on other registers, keeps every field untouched, filtered (value all ones, mask clear) or set |
| `IdregOverride.ParsedKnown` | evidence/2026-10-24-upstream-convergence/sources/idreg-override.c:286-332 | The same after every sequence of options |
| `IdregOverride.LowerKnown` | evidence/2026-10-24-upstream-convergence/sources/idreg-override.c:72-148 | The fields a filter lowers in another register's override stay in one of the three shapes |
| `IdregOverride.OptionsSettle` | evidence/2026-10-24-upstream-convergence/sources/idreg-override.c:286-332 | After any options and the boot CPU's initialisation, each table field is fully masked with a safe value or carries no override |
| `IdregOverride.SetReadsBack` | evidence/2026-10-24-upstream-convergence/sources/idreg-override.c:325-327 | A field that is set reads back as the digit, cut to the field's width |
| `IdregOverride.FindPrinted` | evidence/2026-10-24-upstream-convergence/sources/idreg-override.c:256-284 | An option written as register, field, optional 0x and a hex digit of either case is read as that digit |
| `IdregOverride.FindMeans` | evidence/2026-10-24-upstream-convergence/sources/idreg-override.c:256-284 | Nothing else is read: an option found names the field and shows one digit, up to its end or a blank |
| `IdregOverride.PassesMean` | evidence/2026-10-24-upstream-convergence/sources/idreg-override.c:72-148 | Which values each kind of filter passes |
| `IdregOverride.SideEffectMeans` | evidence/2026-10-24-upstream-convergence/sources/idreg-override.c:72-148 | What a filter does to the other register, and that it touches nothing else |
| `IdregOverride.LowerMeans` | evidence/2026-10-24-upstream-convergence/sources/idreg-override.c:82-95 | Lowering adds exactly the fields' bits to the mask and the values' bits to the value |
| `IdregOverride.LoweredReads` | evidence/2026-10-24-upstream-convergence/sources/idreg-override.c:82-95 | A lowered field that carried no override shows the filter's value |
| `IdregOverride.OptionTakes` | evidence/2026-10-24-upstream-convergence/sources/idreg-override.c:286-332 | The first field an option names is set to its digit if the filter passes it, whatever it names further on; if refused and nothing else is named, it is marked filtered; beside that field nothing changes but what the filter does |
| `IdregOverride.Table.RunFilter` | evidence/2026-10-24-upstream-convergence/sources/idreg-override.c:72-148 | Filters pass or refuse a value and lower or clear another register's override as specified |
| `IdregOverride.Table.MatchOptions` | evidence/2026-10-24-upstream-convergence/sources/idreg-override.c:286-332 | The nested loop does what the specified matching does, ending at the first field set |
| `CpuCaps.UpdateOne` | evidence/2026-10-24-upstream-convergence/sources/asahi--arch__arm64__kernel__cpufeature.c:3548-3600 | The loop decides each capability by its own round alone |
| `CpuCaps.EarlyExactly` | evidence/2026-10-24-upstream-convergence/sources/asahi--arch__arm64__kernel__cpufeature.c:3548-3600 | After any early CPUs: a match-all local capability is set iff every CPU has it, any other local one iff some CPU has it, a boot one iff the boot CPU has it |
| `CpuCaps.SurvivesIff` | evidence/2026-10-24-upstream-convergence/sources/asahi--arch__arm64__kernel__cpufeature.c:3674-3725 | A late CPU survives both checks iff it has every set capability that is not optional and no unset one that is not permitted |
| `CpuCaps.FinalExactly` | evidence/2026-10-24-upstream-convergence/sources/asahi--arch__arm64__kernel__cpufeature.c:3986-3997 | What is final once the system-wide capabilities have joined: those by the sanitised system, the others as the early CPUs left them |
| `CpuCaps.SurvivorsMatchEarlyCpus` | evidence/2026-10-24-upstream-convergence/sources/asahi--arch__arm64__kernel__cpufeature.c:3674-3725 | A late CPU survives if and only if, for every capability: where boot CPU, early CPUs or system settled on it the CPU has it or that is optional, and where not the CPU lacks it or that is permitted |
| `CpuCaps.System.UpdateCpuCapabilities` | evidence/2026-10-24-upstream-convergence/sources/asahi--arch__arm64__kernel__cpufeature.c:3548-3600 | The loop with its continues computes the specified set and the boot capabilities |
| `CpuCaps.System.VerifyLocalCpuCaps` | evidence/2026-10-24-upstream-convergence/sources/asahi--arch__arm64__kernel__cpufeature.c:3674-3725 | Stops at the first conflicting capability, if there is one, after enabling exactly the system's capabilities before it |
| `CpuCaps.EnablesExactly` | evidence/2026-10-24-upstream-convergence/sources/asahi--arch__arm64__kernel__cpufeature.c:3690-3704 | A CPU enables, in order, exactly the capabilities of the checked scopes that the system has |
| `CpuCaps.BootHitMeans` | evidence/2026-10-24-upstream-convergence/sources/asahi--arch__arm64__kernel__cpufeature.c:3597-3598 | The boot capabilities are exactly those of boot scope that the boot CPU has |
| `BootBuild.ClassifyMeans` | scripts/t6040-raw-object-verify.py:108-147 | An expanded member counts as a kernel exactly if it is an ARM64 Image within its header size and the reserve limit, as a DTB exactly if its size field is its length and within limits, as an initramfs exactly if it is a cpio archive within limits and no Image; with the reserve each brings |
| `BootObject.Be32Reads` | scripts/t6040-raw-object-verify.py:242-242 | A 32-bit number written big-endian reads back, every byte with its weight |
| `BootBuild.DecompressExactly` | scripts/t6040-raw-object-verify.py:150-179 | A member is taken exactly if the decoder came to its end within a gibibyte having used something, and is as long as what was used |
| `BootBuild.MagicsSpelled` | scripts/t6040-raw-object-verify.py:59-64 | The magics of kernel, XZ member, gzip member and device tree, spelled |
| `BootBuild.NamesSpelled` | scripts/t6040-raw-object-verify.py:65-67 | The m1n1 payload names and the boot-argument variable, spelled |
| `BootBuild.ParseOfAnyLine` | scripts/t6040-raw-object-verify.py:182-196 | Any variable line: read if the name has 1 to 64 bytes and the value at most 1024, both ASCII; no variable if the name is longer, an error otherwise |
| `BootBuild.ScanOfSignature` | scripts/t6040-raw-object-verify.py:311-324 | A signature in front of anything scans to one record of the length its field counts |
| `BootBuild.ScanOfLogo` | scripts/t6040-raw-object-verify.py:326-333 | A logo in front of anything scans to one record of both pictures |
| `BootBuild.WrappedMeans` | scripts/t6040-raw-object-verify.py:277-292 | What may stand in the wrapper, byte by byte |
| `BootBuild.ZerosOnly` | scripts/t6040-raw-object-verify.py:207-216 | After four zeros a scan succeeds exactly if nothing but zeros follows |
| `BootObject.VariableIsLine` | scripts/t6040-raw-object-verify.py:182-196 | The bytes taken are the name, an equals sign, the value and a newline |
| `BootObject.ScanProgress` | scripts/t6040-raw-object-verify.py:204-361 | Every payload starts where the scan stands and is nonempty; a terminator is all zero and reaches the end: the offset strictly grows |
| `BootObject.ParsePayloadStream` | scripts/t6040-raw-object-verify.py:199-365 | The loop ends and collects exactly the records and variables of the specified scan |
| `BootObject.ParseTiles` | scripts/t6040-raw-object-verify.py:199-365 | A completed scan's records cover the bytes from the start offset to the end without gap or overlap, a terminator only at the end |
| `BootObject.ParseRecords` | scripts/t6040-raw-object-verify.py:335-346 | The variables are exactly those on recorded lines, each name on one line |
| `BootVerify.PayloadRecords` | scripts/t6040-raw-object-verify.py:408-442 | Picks the payload records in order and sums their reserves |
| `BootVerify.CompareArtifacts` | scripts/t6040-raw-object-verify.py:418-430 | True exactly if every payload equals the artifact supplied for its role, none missing in strict mode |
| `BootVerify.VerifyObject` | scripts/t6040-raw-object-verify.py:368-463 | The sequence of checks accepts exactly what the specified verdict accepts, with the same report |
| `BootVerify.OrderMeansOnce` | scripts/t6040-raw-object-verify.py:408-414 | Roles in the required order mean one kernel, one DTB and one initramfs, in that order, and no other payload |
| `BootVerify.HeldOnce` | scripts/t6040-raw-object-verify.py:199-365 | Tiling means every byte lies in exactly one record |
| `BootVerify.AcceptedMeans` | scripts/t6040-raw-object-verify.py:368-442 | Acceptance in either mode establishes: size policy, m1n1 in whole pages with a set entry point, records that tile the object from its end, kernel, DTB and initramfs once each in order, equal to what artifacts were supplied, at least four zeros up to a 16 KiB multiple, and boot arguments as asked for, on one line |
| `BootVerify.StrictMeans` | scripts/t6040-raw-object-verify.py:368-442 | Strict acceptance moreover means that all three artifacts and the boot arguments were supplied |
| `BootBuild.Build` | scripts/t6040-build-raw-object.py:87-135 | Succeeds exactly on the inputs the checks allow; the object is the parts in order, four zeros and the least padding to a 16 KiB multiple |
| `BootBuild.TextMeans` | scripts/t6040-build-raw-object.py:87-88 | Boot arguments are taken exactly if every byte is ASCII and neither newline nor NUL |
| `BootBuild.TreeOk` | scripts/t6040-build-raw-object.py:100-104 | Every device tree whose big-endian size field is its length is taken |
| `BootBuild.ScanOfLine` | scripts/t6040-raw-object-verify.py:335-346 | A chosen.bootargs line in front of anything scans to that variable, if and only if the value has at most 1024 bytes |
| `BootBuild.ScanOfMember` | scripts/t6040-raw-object-verify.py:218-237 | A self-delimiting member in front of anything scans to one record of exactly its length, or is refused for its contents |
| `BootBuild.ScanOfDtb` | scripts/t6040-raw-object-verify.py:239-263 | A DTB in front of anything scans to one record of its length iff its size is within limits |
| `BootBuild.ScanOfWrapped` | scripts/t6040-raw-object-verify.py:265-309 | A wrapped blob in front of anything scans to one record iff its contents and size are acceptable |
| `BootBuild.WholeScan` | scripts/t6040-raw-object-verify.py:199-365 | The scan of an assembled object gives exactly one record a part if all are within limits, and is refused otherwise |
| `BootBuild.BuiltAccepted` | scripts/t6040-raw-object-verify.py:368-442 | Verification, strict or not, accepts an assembled object if and only if the parts are within the verifier's limits and are the very ones asked for; the report then lists each part and gives back the boot arguments |
| `BootBuild.BuilderReady` | scripts/t6040-build-raw-object.py:52-121 | What the builder puts in for each input is a part the scan delimits; an Image it compressed expands to that Image |
| `BootBuild.BuildThenVerify` | scripts/t6040-build-raw-object.py:87-135 | Building and verifying with the same parts succeeds exactly when the object and its contents are within the verifier's limits |
| `BootExample.CodecExists` | scripts/t6040-raw-object-verify.py:150-179 | A codec with self-delimiting members and a compressor that writes them exist |
| `BootExample.ExampleAccepted` | scripts/t6040-build-raw-object.py:87-135 | Concrete inputs the builder accepts and whose object strict verification accepts |
| `Crc32.BitBijection` | scripts/t6040-usb-root-metadata.c:48-56 | The inner CRC step has an explicit two-sided inverse on 32-bit states |
| `Crc32.FeedInjective` | scripts/t6040-usb-root-metadata.c:48-56 | Feeding a byte is injective in the state and in the byte |
| `Crc32.FeedIsLaid` | scripts/t6040-usb-root-metadata.c:48-56 | Feeding bytes one by one is laying them side by side over the state and then stepping through all their bits |
| `Crc32.BlockInjective` | scripts/t6040-usb-root-metadata.c:48-56 | From the same state, different blocks of up to four bytes lead to different states |
| `Crc32.BurstChangesCrc` | scripts/t6040-usb-root-metadata.c:48-56 | Equal-length buffers that differ, and only within four consecutive bytes, have different CRCs |
| `Crc32.OneByteChangesCrc` | scripts/t6040-usb-root-metadata.c:48-56 | In particular buffers that differ in exactly one byte |
| `Crc32.ComputeCrc` | scripts/t6040-usb-root-metadata.c:48-56 | The nested loop computes the specified CRC |
| `CrcPoly.Division` | scripts/t6040-usb-root-metadata.c:48-56 | The reference is division: quotient times the CRC-32 generator plus remainder gives the dividend, the remainder of lower degree |
| `CrcPoly.StepIsTimesX` | scripts/t6040-usb-root-metadata.c:53-53 | One inner step multiplies the polynomial in the state by x modulo the generator, exponents 32, 26, 23, 22, 16, 12, 11, 10, 8, 7, 5, 4, 2, 1 and 0 |
| `CrcPoly.RunIsRemainder` | scripts/t6040-usb-root-metadata.c:48-56 | After any bytes the state is the remainder of the message, first 32 bits complemented and 32 zero bits behind it, by the generator |
| `CrcPoly.CrcIsRemainder` | scripts/t6040-usb-root-metadata.c:48-56 | Each binary digit of the result is the complement of a coefficient of that remainder |
| `Bytes.FromLeByte` | scripts/t6040-usb-root-metadata.c:43-47 | Byte i of a little-endian number has weight 256 to the i |
| `UsbRootGate.SizesBound` | scripts/t6040-usb-root-metadata.c:126-132 | An accepted count and entry size multiply without overflow to at most 1 MiB |
| `UsbRootGate.AcceptedLayout` | scripts/t6040-usb-root-metadata.c:110-258 | If the gate accepts: MBR, header, array, usable area, backup array and backup header are ordered, disjoint and inside the pinned layout, both arrays hold the same bytes, the root partition lies in the usable area and the file system fits in it |
| `UsbRootGate.AcceptedIdentity` | scripts/t6040-usb-root-metadata.c:218-258 | If the gate accepts: the medium has the pinned size, the MBR is purely protective, both headers carry the disk GUID, and the one partition and its file system carry the type, identifiers and label asked for |
| `UsbRootGate.GateExactly` | scripts/t6040-usb-root-metadata.c:181-258 | The gate accepts a disk and reports its root extent if and only if size, MBR, both headers, layout, arrays, the one partition and its clean file system are, byte by byte, as they should be |
| `UsbRootGate.LayoutMeans` | scripts/t6040-usb-root-metadata.c:126-142 | The geometry checks on both headers hold if and only if they name each other, the arrays stand next to them, entry size is 128 times a power of two, the array is at most a mebibyte, and all areas are in order |
| `UsbRootGate.PowerMeans` | scripts/t6040-usb-root-metadata.c:129-129 | The bit trick's meaning: a power of two |
| `UsbRootGate.ArrayChange` | scripts/t6040-usb-root-metadata.c:145-153 | A change within four consecutive bytes that touches an array its header vouches for is refused |
| `UsbRootGate.HeaderChange` | scripts/t6040-usb-root-metadata.c:110-120 | A change within four consecutive bytes that touches a header's covered bytes but not its size field makes the header invalid |
| `UsbRootGate.HeaderAfter` | scripts/t6040-usb-root-metadata.c:110-144 | After such a change a header is refused, or decoded as before if the change missed its covered bytes |
| `UsbRootGate.BurstRejected` | scripts/t6040-usb-root-metadata.c:110-153 | The gate refuses every disk that differs from an accepted one only within four consecutive bytes, a guarded one among them and the size fields not |
| `UsbRootGate.OneByteRejected` | scripts/t6040-usb-root-metadata.c:110-153 | In particular a change of one guarded byte outside the size fields |
| `UsbRootDisk.SignedIntact` | scripts/t6040-usb-root-metadata.c:110-120 | A header whose CRC field holds the CRC of the rest passes the header test |
| `UsbRootDisk.FormattedAccepted` | scripts/t6040-usb-root-metadata.c:218-258 | For every disk, partition and file system identity there is a disk the gate accepts |
| `UsbRootGate.Disk.Read` | scripts/t6040-usb-root-metadata.c:57-68 | However reads are interrupted or cut short, success means exactly the bytes asked for, all in bounds |
| `UsbRootGate.Disk.CheckHeader` | scripts/t6040-usb-root-metadata.c:110-144 | The header checks accept what is specified, every uint64_t computation in range |
| `UsbRootGate.Disk.CheckArray` | scripts/t6040-usb-root-metadata.c:145-153 | Reads exactly the array and accepts it if its CRC fits |
| `UsbRootGate.Disk.CheckTables` | scripts/t6040-usb-root-metadata.c:226-233 | Both headers and arrays are read and must agree |
| `UsbRootGate.Disk.CheckRoot` | scripts/t6040-usb-root-metadata.c:236-258 | The partition entry, empty rest and superblock are accepted as specified, arithmetic in range |
| `UsbRootGate.Disk.RunGate` | scripts/t6040-usb-root-metadata.c:218-258 | On a disk with arbitrary short, interrupted or failing reads the program accepts only what the gate specifies, and on a healthy disk exactly that |
| `UsbRootGate.OthersEmpty` | scripts/t6040-usb-root-metadata.c:237-238 | The loop over the other entries accepts exactly an all-zero rest of the array |
| `UsbRootGate.CheckLabel` | scripts/t6040-usb-root-metadata.c:242-245 | All 36 code units must be the root label padded with zeros |
| `UsbRootGate.CheckSuperblock` | scripts/t6040-usb-root-metadata.c:248-258 | The superblock checks, with the 64-bit block count, accept what is specified |
| `Bytes.IsZero` | scripts/t6040-usb-root-metadata.c:154-158 | True exactly for all-zero bytes |
| `Newc.FieldWidth` | scripts/reproducible-newc.py:16-40 | A header field is eight characters if and only if it is a 32-bit number, and is then read back by Python's lenient base-16 conversion |
| `Newc.HexSpelled` | scripts/reproducible-newc.py:33-33 | Digits are written in lower case |
| `Newc.EntryWritten` | scripts/reproducible-newc.py:16-40 | An entry is written if and only if all its fields are 32-bit numbers, and takes a multiple of four bytes |
| `Newc.HeaderFields` | scripts/reproducible-newc.py:18-33 | Every header field of a written entry reads back as the inode, mode, link count, sizes, device numbers or zero that belongs there |
| `Newc.ArchiveFields` | scripts/reproducible-newc.py:58-83 | Entries are numbered from one and the trailer comes last, with mode zero, one link and no data |
| `Newc.Stream.Pad4` | scripts/reproducible-newc.py:10-13 | Writes the least zero padding to a multiple of four |
| `Newc.Stream.WriteEntry` | scripts/reproducible-newc.py:16-40 | Writes exactly the entry's bytes, or nothing when the header would be malformed |
| `Newc.Stream.WriteArchive` | scripts/reproducible-newc.py:58-83 | The loop writes all entries with inodes counting from one, then the trailer |
| `Newc.Aligned` | scripts/t6040-verify-alpine-b0.py:13-14 | The least multiple of four not below the offset, which may be negative |
| `Newc.EntryParsed` | scripts/t6040-verify-alpine-b0.py:17-46 | An entry written at any multiple of four, before anything, parses back to its name, mode and data and the next offset |
| `Newc.OneLess` | scripts/t6040-verify-alpine-b0.py:41-43 | Every round enters a new name, and only so many stretches of the blob can be names: the measure by which the loop ends even where a negative size sends it back |
| `Newc.ParseNewc` | scripts/t6040-verify-alpine-b0.py:17-46 | On every blob, with signs, blanks, prefixes and underscores in fields and with slices and subscripts from the end as Python has them, the loop ends and returns what the specified parse returns |
| `Newc.ParseEntryExactly` | scripts/t6040-verify-alpine-b0.py:21-38 | When a round of the parser succeeds, in numbers, and what it takes as name, mode, data and next offset |
| `Newc.Lenient` | scripts/t6040-verify-alpine-b0.py:24-24 | What the base-16 conversion lets through around digits: blanks, a sign, and 0x with or without an underscore |
| `Newc.Underscored` | scripts/t6040-verify-alpine-b0.py:24-24 | One underscore between digits is let through, a trailing or a double one is not |
| `Newc.DigitSpelled` | scripts/t6040-verify-alpine-b0.py:24-24 | Digits of either case |
| `Newc.FromTheEnd` | scripts/t6040-verify-alpine-b0.py:32-44 | Slices and subscripts with positions from the end or beyond it |
| `Newc.RoundTrip` | scripts/t6040-verify-alpine-b0.py:17-46 | The archive of any entries with decodable names, followed by any tail, parses if and only if the names are distinct and none is the trailer's and the tail is zero; the result is exactly the names, modes and data |
| `Newc.ArchiveWritten` | scripts/reproducible-newc.py:58-83 | An archive is written if and only if every field of every entry, the inode included, is a 32-bit number |

## Left out

- NVMe reset, RTKit boot, timeouts, power management, probing and the delayed flush: they rest on kernel services that are not in the repository.
- The room behind the scatterlist for the list-page pointers (apple.c 383-393): `NvmeRequest.Iod` keeps them in a sequence of any length.
- The submission queue's own indices: a submission is one step that allocates a free tag below the tag-set depth; reserved tags only make that set smaller.
- regmap.c is not in the repository: what a user write does follows the doc comments of regcache.c (576-587, 605-617), and a failing live write may leave any value in the chip, with or without the cache updated; asynchronous completion, paged ranges, bypass writes by users and patches on cached registers are not modelled.
- BlockSync.Chip.SyncBlockRaw: register addresses do not wrap at 32 bits; a raw write that fails is taken to stop at or before the first register that fails.
- Cache backends with their own sync operation, and the value accessors regcache_get_val and regcache_set_val: the cache is a map from registers to values.
- The feature and capability tables of cpufeature.c: any table of disjoint fields narrower than 32 bits, and any capability table, is covered instead. Hardware-capability, SVE, SME and hypervisor checks of late CPUs are left out.
- Splitting the command line into words and expanding aliases (idreg-override.c 334-368): each option is given as one word.
- IdregOverride.MatchKnown: a field is followed if every table entry of its register covers it wholly or not at all, as the kernel's tables do.
- Real gzip and XZ decoding, SHA-256 digests and the kernel page-size report: records carry offsets, sizes, roles and reserves.
- BootBuild.Build: boot arguments are byte values; characters outside ASCII, refused by the builder's encoding, are values of 128 and above.
- Newc.ParseNewc: UTF-8 validity of names is a parameter, and the kinds of parse error are not told apart.
- Walking the directory tree, file types and link targets of the newc writer: the list of entries is the input.
- UsbRootGate.Disk.RunGate: argument and UUID parsing, opening the device and the identity checks around it are not modelled; the power-of-two test is stated as its arithmetic meaning.
- Dispatch of HID packets after the checksum test, the copy into the response buffer and firmware upload: only the fields that decide acceptance are modelled.
- DockChannel.TxFifo.Send: threshold registers and interrupt masking are not modelled; a wait ends by a wake-up or a timeout, at the other side's choice. The byte register's placement in bits 8 to 15 is not modelled.
- SART shutdown and device lookup.
- Memory ordering below the level of atomic steps, in every model.
- Broadcom WiFi, AIC, cpufreq, PMGR, idle and delay sources, rig scripts, FIT and stage-2 builders, archive/xnu-shim and device trees: register sequences, fixed constants and data, with nothing of the kind proved here.
