# Verified models of the co-simulation demo devices

This project models the devices of the SystemC/TLM co-simulation demos whose behaviour is more
than wiring, and proves what they keep over whole runs. `dafny verify dfyconfig.toml` checks
everything.

| component | files | what is proved |
|---|---|---|
| AXI4 RAM | `AxiTypes`, `AxiRam`, `AxiWriteChannel`, `AxiReadChannel`, `AxiRuns`, `AxiWrap` | responses and read beats come back complete and in order under any back-pressure; the memory and every read beat refine a plain memory fed with the accepted write beats; offers are stable until taken; bursts finish |
| address translation cache | `AtcRegions`, `AtcHost`, `AtcRequests`, `AtcCoverage`, `AtcPartition`, `Atc`, `AtcCoherence` | coherence with the host's page map in every run of replies, remappings and invalidations; exactly which invalidations are complete; exactly which ranges a request loop is sure to cache, for arbitrary replies and for replies from one partition of the address space |
| accelerator threads | `AtcTranslate`, `AtcMd5`, `AtcMd5Runs`, `AtcMd5Interference`, `PcieAcc` | exactly which ranges the translate loop caches and which the MD5 walk digests; that it digests the host's bytes in order, also with remappings and invalidations at its yield points, and exactly which walks these cannot deny |
| AXI DMA | `AxiDma`, `AxiMm2s`, `AxiS2mm`, `AxiLoopback`, `AxiTransfers` | a transfer is cut into pieces that concatenate to the memory range; a packet is stored whatever way it is cut; exactly when both channels on one memory copy a range; what a run of transfers stores, holds back and loses, and exactly when that depends on how the packet is cut |
| slots engine | `SlotsEngine`, `SlotsScheduler` | no doorbell is stranded asleep; a full doorbell is selected within one round; exactly which rings are sure to be served |
| register adapter | `RegisterAdapter` | exactly when two halves equal a whole write, for one write and along any trace; the origin of every write the role sees |
| interconnect, demo DMA | `Iconnect`, `DemoDma` | later windows never change a decoded address; exactly when unmapping inverts decoding; exactly when the chunked copy is a memmove |

## How the model is built

* `Basics` holds the types every component shares.
* A class of the source is a class with the same fields; each method is tied to a step function on
  the values of the fields, and the theorems about runs are lemmas on those step functions. One
  call, clock edge or stretch of a thread between two waits is one atomic step.
* Unsigned 32- and 64-bit values are natural numbers with wrap-around written out (`Bits`).
  `&`, `|` and `~` are defined bit by bit and proved equal to remainders and sums only where a
  power of two makes them so.
* The clock edge of the RAM groups the AW and AR inputs into a `Burst` record. The RAM is taken
  with `PIPELINE_OUTPUT` 0, as defined in the file. A reset edge starts the recorded handshakes
  afresh; resets may come at any time, and a write beat taken on a reset edge still reaches the
  memory, as in the source. `seen` records, for each beat offered, how many write beats had been
  accepted before the edge that loaded it, which is what ties its data to the plain memory.
* The translation agent is an arbitrary function of the number of requests sent and the address
  asked for, so its answers may change over time. `limit` is how many requests a run is observed
  for: a request loop that is still retrying then is reported as not done, and termination is
  stated as the existence of a limit after which every observation is done. `top` bounds the
  addresses used, so that no sum wraps at 2^64. `erase(it)` in `invalidate` is read as continuing
  with the next element (pcie-ats-demo/pcie-acc.h:241). The attribute encoding of the ATS
  extension is not part of this model; attributes are sets of read, write and execute.
* Of the DMA status and control registers, the bits the channels look at are kept.
* The branch of the slots engine that performs the DMA does not compile
  (catapult/slots_dma.cc:336-339), so it is modelled by its yields and the clearing of the doorbell;
  whether a slot has a buffer is chosen at each selection.

## Where the code differs from what one might expect

* An invalidation strictly inside a cached region is missed (`AtcRegions.InvalidateExact`,
  `AtcCoherence.EnclosedInvalidationLeavesStale`).
* Rounding a reply's start down is charged to the range, so a request loop that ends is sure to
  have cached its range only inside one aligned block of 8 KiB (`AtcCoverage.AlwaysCoversIff`).
  Even with replies from one fixed partition of the address space it may stop short past the
  alignment of the range's first page (`AtcPartition.AlwaysCoversPartitionedIff`).
* The translate loop counts 4 KiB steps from an unaligned start (`AtcTranslate.TranslatesAllIff`).
* The MD5 walk goes wrong for a range shorter than a page that starts inside one
  (`AtcMd5.WalkDigestsIff`). An invalidation between two replies can deny a walk over readable
  pages; only a walk that starts on a page and does not leave it is safe from that
  (`AtcMd5Interference.SureToDigestIff`).
* A ring that arrives between the read of its slot and the clearing of the doorbell is lost
  (`SlotsScheduler.RingServedIff`).
* The rest of a piece that fills the receiving DMA channel is dropped, so over several transfers
  it matters how a packet is cut, unless the first takes it all or no later one has room
  (`AxiTransfers.CutMattersIff`).
* A DMA loopback over more than 2 KiB that overlaps forward is not a copy
  (`AxiLoopback.LoopbackCopiesIff`).
* The register adapter's comments say that a staged word is dropped by an out-of-sequence write;
  the code keeps it (catapult/register_adapter.hpp:66-80), and so does the model.
* A WRAP burst is stepped like an INCR burst (`AxiWrap.WrapServedIff`).
* The interconnect decodes the last byte of a window but does not unmap it, and unmaps a window
  entered with an explicit index by another entry (`Iconnect.UnmapInvertsDecodeIff`). It leaves the
  initiator's offset in the address it restores (`Iconnect.Interconnect.BTransport`).
* The demo DMA's copy is a memmove only outside forward overlaps of more than one burst
  (`DemoDma.CopiesLikeMemmoveIff`).

## Model

| member | source | states |
|---|---|---|
| AxiRam.Axi4Ram.constructor | sysc_verilog_top.sv:159-167 | registers and memory at power-on, each row of eight words holding its first index |
| AxiRam.InitialRows | sysc_verilog_top.sv:159-167 | each of eight rows of eight words is filled with the number of its first word |
| AxiRam.ResetDoesNotStopWrites | sysc_verilog_top.sv:256-260 | a write beat is stored at an edge with reset as at one without |
| AxiRam.Axi4Ram.WriteBlock | sysc_verilog_top.sv:169-240 | the write next-state block computes the next registers and the memory write enable |
| AxiRam.Axi4Ram.ReadBlock | sysc_verilog_top.sv:271-326 | the read next-state block computes the next registers and the memory read enable |
| AxiRam.Axi4Ram.SampleRead | sysc_verilog_top.sv:342-345 | read data is the word at the read address before the edge |
| AxiRam.Axi4Ram.WriteLanes | sysc_verilog_top.sv:256-260 | only strobed byte lanes of one word change |
| AxiRam.Axi4Ram.CommitWrite | sysc_verilog_top.sv:242-269 | clocked write registers, then reset of state, ready and valid |
| AxiRam.Axi4Ram.CommitRead | sysc_verilog_top.sv:328-361 | clocked read registers, then reset of state, ready and valid |
| AxiRam.Axi4Ram.ClockEdge | sysc_verilog_top.sv:169-361 | one clock edge of all registers and the memory, the read sampled before the write |
| AxiTypes.BytesPerBeat | sysc_verilog_top.sv:208-210 | a beat has two to the power of the size code bytes, at most four |
| AxiTypes.BeatWordByCodes | sysc_verilog_top.sv:208-210 | by the bus codes: kind 0 stays at its word, the others go on by 1, 2 or 4 bytes from the aligned start, modulo 64 words |
| AxiTypes.BurstBeatsByCodes | sysc_verilog_top.sv:305-320 | a burst has len+1 beats with its ID, the last marked only |
| AxiTypes.SteppedAddressHitsStandardWord | sysc_verilog_top.sv:208-210 | the un-aligned increment hits the word of the aligned formula of IHI 0022 A3.4.1 at every beat, modulo 256 bytes |
| AxiTypes.ReplayLastWriterWins | sysc_verilog_top.sv:256-260 | in the plain memory a byte holds what the last beat strobing it wrote |
| AxiTypes.ReplayUntouched | sysc_verilog_top.sv:256-260 | in the plain memory a byte no beat strobes keeps its value |
| AxiWriteChannel.WriteStepKeeps | sysc_verilog_top.sv:169-269 | every edge keeps control signals, response order, beat position and memory contents consistent with the handshakes seen |
| AxiWriteChannel.NextBeatWord | sysc_verilog_top.sv:203-214 | the write address register points at the word of the next beat of the accepted bursts |
| AxiReadChannel.NextReadBeat | sysc_verilog_top.sv:305-320 | the read registers describe exactly the next beat of the accepted bursts |
| AxiReadChannel.ReadStepKeeps | sysc_verilog_top.sv:271-361 | every edge keeps every beat offered equal to the expected one |
| AxiReadChannel.PlainMemoryStable | sysc_verilog_top.sv:256-260 | later write beats do not change the memory after the first n |
| AxiRuns.ResetStartsAfresh | sysc_verilog_top.sv:262-268 | power-on and every reset edge lead to the state the run theorems start from, idle with every ready and valid low |
| AxiRuns.WriteResponsesInOrder | sysc_verilog_top.sv:169-269 | in every run, B IDs are the AW IDs in order, and AWs minus Bs is one for a burst under way plus one for a response on offer |
| AxiRuns.ResponseFollowsData | sysc_verilog_top.sv:203-238 | each burst takes awlen+1 data beats, wready holds exactly in BURST, RESP implies bvalid, and a response never precedes its data |
| AxiRuns.MemoryIsPlain | sysc_verilog_top.sv:256-260 | in every run the memory is the plain memory to which the accepted beats were applied in order, at the addresses of IHI 0022 A3.4.1 for FIXED and INCR bursts |
| AxiRuns.ReadBeatsInOrder | sysc_verilog_top.sv:271-361 | in every run R beats handshaken, held and owed are the beats of the accepted ARs in order, rlast on the last of each only |
| AxiRuns.ReadsArePlain | sysc_verilog_top.sv:305-345 | each R beat carries its word as the plain memory stood before the edge that loaded it |
| AxiRuns.LaterLoadsSeeEarlierWrites | sysc_verilog_top.sv:342-345 | a load sees every write beat accepted before it |
| AxiRuns.ResponseHeldUntilTaken | sysc_verilog_top.sv:183-238 | an offered B stays with its ID until taken |
| AxiRuns.ReadBeatHeldUntilTaken | sysc_verilog_top.sv:276-323 | an offered R stays with ID, data and last until taken |
| AxiRuns.ReadyUntilAddress | sysc_verilog_top.sv:186-202 | one edge after reset both address channels are ready and stay so until an address comes |
| AxiRuns.ReadBurstProceeds | sysc_verilog_top.sv:305-320 | under any pattern of rready a read burst loads one beat at each edge that finds the output register free, and stays under way until its last |
| AxiRuns.ReadBurstDrains | sysc_verilog_top.sv:305-320 | at the n-th free edge, not before, a burst of n beats is loaded, its last beat on offer and the RAM ready again |
| AxiRuns.WriteBurstProceeds | sysc_verilog_top.sv:203-220 | under any pattern of wvalid a write burst takes one beat at each edge with data, and stays under way until its last |
| AxiRuns.WriteBurstCompletes | sysc_verilog_top.sv:203-238 | at the n-th edge with data a burst of n beats is answered, or its response is parked and offered at the first edge that takes the earlier one |
| AxiWrap.WrapServedIff | sysc_verilog_top.sv:208-210 | a legal WRAP burst is served as specified iff it starts on its wrap boundary or is the two-byte burst inside one word |
| AxiWrap.WrapAddressIsInBlock | sysc_verilog_top.sv:208-210 | the reference address of a WRAP beat lies in the aligned block of the burst, a block or none away from the stepped one |
| AxiWrap.WrapServedByCodes | sysc_verilog_top.sv:208-210 | the same condition by the bus codes: kind 2, 2^size bytes a beat |
| Bits.AndOrBits | pcie-ats-demo/pcie-acc.h:68-72 | the bitwise operators work on each binary digit by itself |
| Bits.WrapsModulo | iconnect.h:160-171 | 64- and 32-bit sums and differences are the ones modulo 2^64 and 2^32 |
| AtcRegions.NaturalTranslation | pcie-ats-demo/pcie-acc.h:68-72 | phys OR the low bits of va is phys + (va - base) in a natural region |
| AtcRegions.AlignDownContains | pcie-ats-demo/pcie-acc.h:132-136 | rounding down by a power of two gives an aligned start whose region holds the address |
| AtcRegions.LookupFinds | pcie-ats-demo/pcie-acc.h:165-198 | the first-match search succeeds iff some region contains the address, and returns one that does |
| AtcRegions.PurgeMembers | pcie-ats-demo/pcie-acc.h:228-246 | invalidation keeps exactly the regions with neither end in the range |
| AtcRegions.PurgeKeepsOthers | pcie-ats-demo/pcie-acc.h:228-246 | invalidation does not change the translation of other addresses |
| AtcRegions.OverlapsAndEncloses | pcie-ats-demo/pcie-acc.h:228-252 | overlapping is having an address in common, enclosing is holding the range and an address on either side |
| AtcRegions.InvalidateExact | pcie-ats-demo/pcie-acc.h:228-252 | nothing cached overlaps the range afterwards iff no cached region enclosed it |
| AtcRegions.AlignedNeverEnclosed | pcie-ats-demo/pcie-acc.h:228-252 | an aligned range at least as large as a region is not enclosed by it |
| AtcHost.CoherentLookup | pcie-ats-demo/pcie-acc.h:165-198 | a cached address of a coherent cache translates as the host does |
| AtcRequests.FillTerminates | pcie-ats-demo/pcie-acc.h:97-156 | the request loop ends when no request is refused for ever |
| AtcRequests.RefusalsOnlyDelay | pcie-ats-demo/pcie-acc.h:129-155 | a failed reply only causes the same request to be sent again |
| AtcRequests.FillAddsReplies | pcie-ats-demo/pcie-acc.h:129-143 | every region added is one granted reply with its length, physical address and attributes |
| AtcRequests.FillChains | pcie-ats-demo/pcie-acc.h:97-156 | the regions added form a chain from the page asked for, at least as long as the range once done |
| AtcRequests.RequestCachesFirst | pcie-ats-demo/pcie-acc.h:97-156 | a finished request loop caches the first byte asked for |
| AtcCoverage.BlockIsCovered | pcie-ats-demo/pcie-acc.h:97-156 | inside one aligned 8 KiB block every finished request loop has cached every byte, whatever the replies |
| AtcCoverage.CrossingMisses | pcie-ats-demo/pcie-acc.h:132-152 | for every range across a block boundary some sound agent lets the loop finish without the last byte |
| AtcCoverage.AlwaysCoversIff | pcie-ats-demo/pcie-acc.h:97-156 | every finished request loop with every sound agent caches the whole range iff the range lies in one aligned 8 KiB block |
| AtcPartition.LosesNothingMore | pcie-ats-demo/pcie-acc.h:132-152 | with replies from one partition only the first reply of a request loop can be rounded down |
| AtcPartition.RoundedReply | pcie-ats-demo/pcie-acc.h:132-136 | a natural region that holds a page and starts below it reaches past the largest power of two dividing the page's address |
| AtcPartition.AlwaysCoversPartitionedIff | pcie-ats-demo/pcie-acc.h:97-156 | every finished request loop with replies from one partition caches the whole range iff the range is empty, starts in page 0, or ends within its first page's alignment |
| AtcRequests.RequestCoversAll | pcie-ats-demo/pcie-acc.h:97-156 | it caches the whole range when every reply starts at the page asked for, unaligned ranges included |
| AtcRequests.FillCoherent | pcie-ats-demo/pcie-acc.h:136-143 | regions added from current replies agree with the host |
| Atc.TranslationCache.Contains | pcie-ats-demo/pcie-acc.h:165-177 | true iff some region contains the address |
| Atc.TranslationCache.VirtToPhys | pcie-ats-demo/pcie-acc.h:186-198 | the translation by the first matching region, 0 without one |
| Atc.TranslationCache.TestAttr | pcie-ats-demo/pcie-acc.h:208-220 | whether the first matching region allows the access |
| Atc.TranslationCache.Invalidate | pcie-ats-demo/pcie-acc.h:228-246 | erases in place exactly the regions hit |
| Atc.TranslationCache.BTransportAtsInv | pcie-ats-demo/pcie-acc.h:399-413 | a message with the ATS extension invalidates its range, one without changes nothing |
| Atc.TranslationCache.DoAtsReq | pcie-ats-demo/pcie-acc.h:97-156 | the request loop appends the regions of its replies |
| AtcCoherence.RunKeeps | pcie-ats-demo/pcie-acc.h:127-143 | every legal run keeps each cached region in agreement with the host on pages with no invalidation outstanding |
| AtcCoherence.InvalidationKeeps | pcie-ats-demo/pcie-acc.h:228-246 | a delivered invalidation that no region encloses completes its remappings |
| AtcCoherence.CachedMeansCurrent | pcie-ats-demo/pcie-acc.h:165-246 | in every legal run, a cached address with no invalidation outstanding translates as the host does now |
| AtcCoherence.EnclosedInvalidationLeavesStale | pcie-ats-demo/pcie-acc.h:239-240 | a remapped page inside a larger region keeps its old translation after its invalidation |
| AtcCoherence.RemapCycle | pcie-ats-demo/pcie-acc.h:228-246 | remapping inside a cached region and then invalidating the region is legal and leaves nothing cached or outstanding |
| AtcCoherence.RequestsAreReplyEvents | pcie-ats-demo/pcie-acc.h:106-155 | a request loop does to the cache what its replies do one by one |
| AtcCoherence.OneRequestPerReply | pcie-ats-demo/pcie-acc.h:106-155 | the loop sends one request for each reply |
| AtcCoherence.RepliesAreLegal | pcie-ats-demo/pcie-acc.h:129-143 | the replies of a sound and current agent are legal events |
| AtcTranslate.EnsuredCoversPage | pcie-ats-demo/pcie-acc.h:517-519 | after a check that ended the whole page of the address is cached |
| AtcTranslate.LoopCoversPages | pcie-ats-demo/pcie-acc.h:514-525 | the finished translate loop has cached every page it stepped through |
| AtcTranslate.TranslatesAllIff | pcie-ats-demo/pcie-acc.h:501-529 | the loop caches every byte of the range for every prior cache and reply sizes iff its steps reach the end; always from a page-aligned start |
| AtcTranslate.LoopAsksForMissing | pcie-ats-demo/pcie-acc.h:514-525 | from a page-aligned start the loop asks for exactly the pages of its range that are not cached, one request each, in order |
| AtcTranslate.LoopTerminates | pcie-ats-demo/pcie-acc.h:501-529 | the translate loop ends when no request is refused for ever |
| AtcMd5.SafeTurn | pcie-ats-demo/pcie-acc.h:656-662 | from a safe range an iteration reads up to the page end or the range end and leaves a safe range |
| AtcMd5.TurnByOffset | pcie-ats-demo/pcie-acc.h:653-664 | over a readable byte a turn reads up to the offset's page end, spins at length zero, or asks for a length wrapped at 2^64 |
| AtcMd5.ChunkEndsInPage | pcie-ats-demo/pcie-acc.h:656-660 | a chunk stays in a page iff it is not empty and its first and last bytes are in one page |
| AtcMd5.WalkFeedsTranslatedBytes | pcie-ats-demo/pcie-acc.h:639-668 | the chunks are the translated bytes of a prefix of the range in order, each inside one page, the whole range when digested |
| AtcMd5.UnsafeWalkNeverDigests | pcie-ats-demo/pcie-acc.h:659-660 | a range shorter than a page that starts inside one is never digested |
| AtcMd5.WalkDigestsIff | pcie-ats-demo/pcie-acc.h:639-673 | over readable pages a walk digests iff the range is empty, page-aligned or at least a page |
| AtcMd5.WalkEnds | pcie-ats-demo/pcie-acc.h:639-668 | the walk stops waiting when no request is refused for ever |
| AtcMd5.UnreadableWalkIsDenied | pcie-ats-demo/pcie-acc.h:648-673 | a walk over a byte that may not be read is denied after the bytes before it |
| AtcMd5Runs.QuietRunIsWalk | pcie-ats-demo/pcie-acc.h:639-668 | without interference the interleaved walk feeds the same chunks, leaves the same cache and ends the same way as the sequential one |
| AtcMd5Runs.TurnStaysSafe | pcie-ats-demo/pcie-acc.h:648-662 | from a safe range a check over any cache of natural regions is denied or reads to the page end or range end |
| AtcMd5Runs.ChunksAreCurrent | pcie-ats-demo/pcie-acc.h:639-673 | with any legal replies, remappings and invalidations at the yield points, each chunk stays in a page and is the host's bytes as mapped when translated, in range order; digested means all of the range |
| AtcMd5Runs.QuietStepsAllowed | pcie-ats-demo/pcie-acc.h:129-143 | with a sound agent whose replies are current every step of the walk without interference is allowed, so what holds of all allowed runs holds of it |
| AtcMd5Interference.OnePageDigests | pcie-ats-demo/pcie-acc.h:643-668 | a walk over readable pages that starts on a page and does not leave it is digested whenever it ends, whatever replies, remappings and invalidations come |
| AtcMd5Interference.InvalidationDenies | pcie-ats-demo/pcie-acc.h:643-651 | every range that leaves its first page has a run over readable pages, none remapped, in which an invalidation between replies denies the walk before a byte is read |
| AtcMd5Interference.SureToDigestIff | pcie-ats-demo/pcie-acc.h:639-673 | a walk over readable pages is sure to be digested under any legal interference iff its range is empty, or starts on a page and does not leave it |
| PcieAcc.Accelerator.AtsReqThread | pcie-ats-demo/pcie-acc.h:501-529 | the translate command runs the loop on the cache and then sets DONE |
| PcieAcc.Accelerator.ReadThread | pcie-ats-demo/pcie-acc.h:543-567 | the read command reads the translated address iff reading is allowed, then sets DONE |
| PcieAcc.Accelerator.Md5Thread | pcie-ats-demo/pcie-acc.h:619-688 | the MD5 command runs the walk and leaves status 1 when digested, 3 when denied, and the status as it was otherwise |
| PcieAcc.ReadableCommandIsDone | pcie-ats-demo/pcie-acc.h:639-686 | a command over a safe range of readable pages that ends leaves status 1 after the host's bytes of the whole range |
| PcieAcc.UnreadableCommandIsError | pcie-ats-demo/pcie-acc.h:648-673 | a command over a safe range with an unreadable byte leaves status 3 after a proper prefix |
| PcieAcc.DeviceAddressIsSum | pcie-ats-demo/pcie-acc.h:509-510 | the OR of the two address registers is their 64-bit combination |
| PcieAcc.ReadReachesHostAddress | pcie-ats-demo/pcie-acc.h:553-563 | over a coherent cache the address read is the host's |
| AxiDma.Channel.RegisterAccess | xilinx-axidma.cc:190-212 | the effect of a driver write; only LENGTH clears IDLE and the byte count |
| AxiDma.SetUpChannel | xilinx-axidma.cc:190-212 | a channel set up by the driver has the 64-bit address and length written, and its interrupt line follows the enable bit and is acknowledged by a one |
| AxiMm2s.Mm2s.CopyPiece | xilinx-axidma.cc:139-164 | one iteration sends the next piece, advances the address pair and completes at the end |
| AxiMm2s.Mm2s.DoDmaCopy | xilinx-axidma.cc:126-166 | a wake-up sends all pieces of the transfer and leaves the registers at its end |
| AxiMm2s.TransferSendsMemory | xilinx-axidma.cc:139-158 | ceil(len/2048) pieces concatenate to memory [addr, addr+len), end of packet on the last only |
| AxiMm2s.TransferEnd | xilinx-axidma.cc:154-164 | the address pair ends at addr+len with carry, LENGTH at 0, IDLE and IOC_IRQ set, interrupt as enabled |
| AxiMm2s.BusyUntilLastPiece | xilinx-axidma.cc:139-164 | until the last piece LENGTH and address move by 2 KiB and no completion is reported |
| AxiMm2s.DriverTransfers | xilinx-axidma.cc:126-212 | from the driver's writes to the end: the memory at the address written goes out, the interrupt is raised iff enabled |
| AxiMm2s.NeverCopiesWhileIdle | xilinx-axidma.cc:135-139 | the not-idle assertion never fails in any interleaving with a driver that writes LENGTH only when idle or fresh |
| AxiS2mm.S2mm.StreamTransport | xilinx-axidma.cc:217-267 | a piece is held back while idle, otherwise what fits is stored and the registers updated |
| AxiS2mm.PacketIsStored | xilinx-axidma.cc:241-263 | while busy copied + LENGTH is the programmed length; at the end LENGTH is the bytes stored, the packet cut off at the programmed length |
| AxiS2mm.ReceivesPacket | xilinx-axidma.cc:199-263 | from the LENGTH write to the end of a packet exactly min(programmed, packet) bytes of it are stored and reported, and the interrupt is raised iff enabled |
| AxiS2mm.FedKeepsEnable | xilinx-axidma.cc:241-263 | whatever arrives, the interrupt enable is kept |
| AxiS2mm.BusyReportsNothing | xilinx-axidma.cc:256-263 | a piece that neither fills the channel nor ends the packet reports no completion |
| AxiS2mm.CutDoesNotMatter | xilinx-axidma.cc:217-267 | two ways of cutting the same packet leave the same memory, address and LENGTH |
| AxiS2mm.LoopbackCopies | xilinx-axidma.cc:126-267 | streaming a range of one memory into a channel on another memory copies it |
| AxiLoopback.LoopbackMoves | xilinx-axidma.cc:139-267 | on one memory the receiver ends idle with LENGTH the bytes moved, piece after piece, each read after the one before it was stored |
| AxiLoopback.LoopbackCopiesIff | xilinx-axidma.cc:126-267 | the memory ends as a copy of the range, whatever it held, iff dst <= src, dst >= src+n or n <= 2048, n the fewer of programmed and sent bytes |
| AxiTransfers.JobReceipt | xilinx-axidma.cc:199-263 | a job takes pieces until it is full or the packet ends, stores what arrived up to its length and reports that |
| AxiTransfers.NothingLostIff | xilinx-axidma.cc:245-262 | a job drops nothing iff its length reaches the end of the packet or ends where a piece ends |
| AxiTransfers.RunConservesBytes | xilinx-axidma.cc:230-263 | over any run of jobs the bytes stored, dropped and still held back are the stream, in order |
| AxiTransfers.RunStoresReceipts | xilinx-axidma.cc:199-263 | the channel programmed for one job after the other stores, holds back and reports exactly that |
| AxiTransfers.SameKeptSameMemory | xilinx-axidma.cc:217-267 | two streams that leave the same bytes to every job leave the same memory |
| AxiTransfers.CutReachesLater | xilinx-axidma.cc:245-262 | a cut at the end of the first job gives the rest of the packet to the first later job with room |
| AxiTransfers.CutMattersIff | xilinx-axidma.cc:230-263 | all cuts of a packet store the same bytes over a run of jobs iff there is no job, the first takes the whole packet, or no later job has room |
| SlotsEngine.RegnumsDisjoint | catapult/slots_dma.h:126-134 | doorbell registers differ from each other and from address registers |
| SlotsEngine.DoorbellRegnumIsSum | catapult/slots_dma.h:97-129 | the doorbell register number is 0x30000 + 512 * slot + 0 or 1 |
| SlotsEngine.AddressRegnumIsSum | catapult/slots_dma.h:97-134 | the address register number is 0x20200 + 4 * slot + 0, 1 or 2 |
| SlotsEngine.DistanceIsCircular | catapult/slots_dma.cc:276-308 | the scan order is upwards from the slot after the last one, modulo the number of slots, the last one itself at the end |
| SlotsEngine.Engine.FindNextFullDoorbell | catapult/slots_dma.cc:276-308 | finds the first full doorbell in circular order and its value, or reports none with its arguments unchanged |
| SlotsEngine.Engine.WriteDoorbellRegister | catapult/slots_dma.cc:231-265 | a host write stores its value in its own register, full or done, changes no other, and notifies iff non-zero |
| SlotsEngine.Engine.ClearFullDoorbell | catapult/slots_dma.cc:351-353 | clearing changes the one full doorbell only |
| SlotsScheduler.DmaThread.Scan | catapult/slots_dma.cc:320-394 | a scan selects, clears an unconfigured slot, or sleeps |
| SlotsScheduler.DmaThread.Clear | catapult/slots_dma.cc:349-361 | the doorbell of the slot in service is cleared after the first yield |
| SlotsScheduler.DmaThread.Finish | catapult/slots_dma.cc:358-382 | after the second yield the thread scans again |
| SlotsScheduler.DmaThread.HostWrite | catapult/slots_dma.cc:231-265 | a host write between two stretches of the thread changes its doorbell and the notification only |
| SlotsScheduler.NoDoorbellStranded | catapult/slots_dma.cc:256-262 | in every interleaving, asleep with a full doorbell means a notification is pending |
| SlotsScheduler.RungScanSelects | catapult/slots_dma.cc:276-308 | a scan that meets a full doorbell selects one |
| SlotsScheduler.SelectionApproaches | catapult/slots_dma.cc:276-308 | each other selection strictly shortens the circular distance to a full doorbell |
| SlotsScheduler.PassedOverAtMost | catapult/slots_dma.cc:310-395 | a full doorbell is passed over at most its distance many times, and is not lost meanwhile |
| SlotsScheduler.SelectedWithinOneRound | catapult/slots_dma.cc:310-395 | a full doorbell is selected within slot_count selections, whatever the host writes elsewhere |
| SlotsScheduler.LostRingNeverSelected | catapult/slots_dma.cc:349-353 | after a ring while its slot waits to be cleared, no legal run selects the slot until the host rings again |
| SlotsScheduler.StarvingRun | catapult/slots_dma.cc:310-395 | a slot whose doorbell is down can be passed over any number of times |
| SlotsScheduler.RingServedIff | catapult/slots_dma.cc:310-395 | with two or more slots, every legal run after a ring that leaves it rung selects the slot within slot_count other selections iff the ring did not come between its read and its clearing |
| SlotsScheduler.SelectedAtMostOnce | catapult/slots_dma.cc:320-390 | without a new ring a slot is selected at most once, with a buffer or without |
| SlotsScheduler.LeftAloneFallsAsleep | catapult/slots_dma.cc:310-395 | left alone the engine takes at most 4n+5 steps for n rings; where it can take no more it sleeps, none is rung and each ring was selected once |
| SlotsScheduler.ResetTakesRingsBack | catapult/slots_dma.cc:34-37 | a reset clears every doorbell and leaves the thread where it is |
| RegisterAdapter.Adapter.Write | catapult/register_adapter.hpp:43-103 | stages, joins, passes through or rejects a write as the adapter's branches do |
| RegisterAdapter.Adapter.Read | catapult/register_adapter.hpp:105-138 | a read returns the role's register, its low word (value mod 2^32) or its high word (value / 2^32) |
| RegisterAdapter.ReadHalfByAddress | catapult/register_adapter.hpp:118-132 | what is read by length and address, in terms of the role's value |
| RegisterAdapter.AcceptedIffEffective | catapult/register_adapter.hpp:51-102 | the whole length is reported iff the write staged a word or reached the role, 0 when it left everything as it was |
| RegisterAdapter.JoinIsSum | catapult/register_adapter.hpp:95 | joining shifts and ORs the words into high * 2^32 + low |
| RegisterAdapter.SplitReadJoins | catapult/register_adapter.hpp:118-132 | two half reads join to the role's value |
| RegisterAdapter.StagedAlongTrace | catapult/register_adapter.hpp:24-29 | the staged address is always the idle sentinel or 8-aligned |
| RegisterAdapter.SplitEqualsWholeIff | catapult/register_adapter.hpp:43-103 | low then high half act as the whole write iff no other write is in progress |
| RegisterAdapter.SplittingPreservesPosts | catapult/register_adapter.hpp:43-103 | splitting whole writes in any trace, where none is in progress, leaves the role's writes unchanged |
| RegisterAdapter.SplitsUnnoticedIff | catapult/register_adapter.hpp:43-103 | along any trace the role has received the same after every write, split or not, iff no other write is in progress at any split |
| RegisterAdapter.UnsafeSplitsCanCancel | catapult/register_adapter.hpp:43-103 | a trace whose unsafe splits make up for each other: the role's writes are the same at its end only |
| RegisterAdapter.WholeTraceSplits | catapult/register_adapter.hpp:43-103 | a trace of whole writes may be split anywhere |
| RegisterAdapter.PostOrigin | catapult/register_adapter.hpp:82-101 | each role write is a 64-bit write as issued or joins a high word with the last accepted low word just below it |
| Iconnect.Interconnect.Memmap | iconnect.h:127-151 | a window goes to the first free entry, or the map is full and unchanged |
| Iconnect.Interconnect.MapAddress | iconnect.h:154-176 | decodes by the first matching window; target 0 and the offset untouched without one |
| Iconnect.Interconnect.UnmapOffset | iconnect.h:179-199 | turns an offset back into an address or reports the range error |
| Iconnect.Interconnect.BTransport | iconnect.h:202-222 | forwards to the decoded target and offset; the transaction ends with the caller's own address iff the initiator has no offset |
| Iconnect.FirstMatchIs | iconnect.h:160-171 | the entry found matches and none before it does |
| Iconnect.EnteringKeepsDecode | iconnect.h:127-176 | a new window decodes its own addresses where nothing did and changes no other |
| Iconnect.WindowDecodes | iconnect.h:127-176 | a window entered with addr, size, mode and idx decodes addr to addr+size inclusive, to its target and offset, and nothing else |
| Iconnect.LaterWindowsKeepDecode | iconnect.h:127-176 | no sequence of later windows changes a decoded address |
| Iconnect.UnmapInvertsDecodeIff | iconnect.h:154-199 | for every decoded address, unmapping its target and offset returns it iff the target's own entry has the same base and a size above the offset; for a window with its own number, iff it is not the inclusive last byte |
| Iconnect.AbsoluteUnmaps | iconnect.h:166-196 | absolute windows hand the address through both ways |
| DemoDma.Dma.Transfer | demo-dma.cc:103-104 | a burst read into the buffer and written back moves the bytes |
| DemoDma.Dma.Iterate | demo-dma.cc:100-119 | one pass copies a burst and swaps RUN for DONE only when nothing is left |
| DemoDma.Dma.DoDmaCopy | demo-dma.cc:91-121 | a run copies burst by burst in ceil(len/32) bursts and then raises DONE |
| DemoDma.SafeCopyIsMemmove | demo-dma.cc:100-109 | outside forward overlaps the chunked copy is a memmove |
| DemoDma.UnsafeCopyDiffers | demo-dma.cc:100-109 | for a forward overlap longer than a burst there is a memory on which it differs |
| DemoDma.CopiesLikeMemmoveIff | demo-dma.cc:91-121 | the copy equals memmove on every memory iff dst <= src, dst >= src+len or len <= 32 |

## Left out

- The SystemC kernel, TLM sockets, delays, DMI and tracing: threads are atomic steps between waits.
- The output pipeline registers of the RAM, unused with `PIPELINE_OUTPUT` 0, and its unread inputs (lock, cache, prot, wlast).
- `bar_b_transport` and the write thread of the accelerator: a register switch, and the read thread with the access turned round.
- The MD5 function itself: the digest is the list of physical reads fed to it.
- AtcMd5.WalkFeedsTranslatedBytes: assumes that no invalidation arrives during the walk; `AtcMd5Runs` has the walk with invalidations.
- AtcMd5Interference.SureToDigestIff: leaves out ranges into the last page of the 64-bit address space, which no region can match because its end wraps to 0 (pcie-ats-demo/pcie-acc.h:63-66).
- AtcTranslate.TranslatesAllIff: assumes that no invalidation arrives during the loop, since one that arrives after the last step takes pages out again whatever the loop does.
- AxiMm2s.TransferSendsMemory: assumes that the driver leaves the address registers alone during a transfer and that the range does not wrap at 2^64.
- AxiS2mm.PacketIsStored: starts at a LENGTH write, because the byte count has no initial value before it.
- Register accesses of the DMA with byte enables or more than four bytes, which only return an error, and the registers without a meaning.
- The address and status registers of the slots engine other than the doorbells: a table.
- The transfer of a selected slot's data, unfinished in the source.
- `set_target_offset`, debug and DMI paths of the interconnect: copies of the decode path or of unclear intent.
- Byte enables, error responses and the speculative read of the demo DMA, and address wrap at 2^32.
