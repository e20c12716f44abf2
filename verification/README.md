# Verification models of ESP-IDF components

Dafny models of nine components of ESP-IDF whose correctness rests on an invariant, a protocol or an
arithmetic argument, with proofs that the properties hold on every input, run or schedule. Where a property that
the code is meant to have does not always hold, the exact condition is proved, together with an input that
breaks it.

| file | what it models |
|---|---|
| `Ring.dfy` | the tracing ring buffer that shrinks when it wraps early |
| `TraceWire.dfy` | the trace stream as the host reads it |
| `MemBufs.dfy` | the two-block trace protocol with its pending ring, over `Ring.dfy` |
| `Guards.dfy` | C++ one-time construction guards as interleaved steps (section 3.3.2 of the Itanium C++ ABI) |
| `OtaWrite.dfy` | streaming an update into flash: erase-ahead, 16-byte cache, final flush |
| `OtaSelect.dfy` | the two otadata sectors: switching, power loss, rollback, and the host tool |
| `SplitArgv.dfy` | the console tokenizer that writes over the line it reads |
| `Scheduler.dfy`, `Repeats.dfy`, `Forecast.dfy` | the work list of `idf.py`, which of several equal commands it runs, and how to tell beforehand |
| `Dac.dfy` | the cyclic loader of the DAC driver |
| `Cpio.dfy`, `Dfu.dfy` | the archive printer of `mkdfu.py`, a reader of it, and the DFU image writer |
| `SplitPaths.dfy` | the enumeration of readings of a space-separated path variable |
| `Machine.dfy`, `DivMod.dfy` | 32-bit and byte values; division by a unit that is not a constant |

State the code changes in place is modelled by classes and arrays with `modifies` clauses; pure code by functions.
Clocks, the host, flash faults, power cuts, image verification, checksums and the file system enter as parameters:
scripts of answers, sets of possible cut points, or function values.

## Main results

- **Trace stream.** What the host was handed, then the current block up to its marker, then the pending ring, is
  at every moment exactly the packets whose calls succeeded, in order (`MemBufs.Valid`, kept by every operation).
  In every session the host can read an initial part of them, and all of them after a full flush. Of the data the host
  leaves in a block, a switch takes everything, in order, unless the ring for it is full. How many answers each call
  uses up is exact: no packet is refused before the host has accepted a switch or the timer has expired, and no wait for
  host data is given up before that.
- **Guards.** In every schedule at most one task initialises a guard, the waiting count is right, and there is a
  token for every waiter once nothing is pending, although tokens are stolen. Releases and aborts take effect as they
  were called, and only a ready guard makes an acquire return 0. Started calls always come to rest.
  Then a waiter of a guard that is no longer pending can still get through if and only if a task outside the three
  functions initialises a guard, or can begin to initialise one; otherwise its wakeup is lost for good. A schedule
  without any circular wait loses one.
- **OTA writing.** With sequential erasing no write programs a byte that was not erased for it, and no erase touches
  written data, with or without encryption. Only the flush in `esp_ota_end` can, and exactly when is proved. An update
  begun with a size is not held to it: what it programs over is exactly the unerased flash behind that size. Without
  flash faults and within the partition, how an update ends is told from its data, and both failures happen in runs
  that succeed.
- **OTA selection.** A power cut anywhere in a switch to a slot leaves the old choice or the new one. In a switch to
  the factory application it does so if and only if the second record does not stand for yet another slot. A possible
  rollback boots a verified image. The host tool picks the device's number but can fail to switch, and exactly when is
  proved.
- **Tokenizer, archive, path splitter.** Round trips, each exactly where the source can promise one. What any command
  line is split into is told byte by byte.
- **Scheduler and DAC loader.** Termination, closure and order of the work list, and, for all declarations and command
  lines, which of several equal commands is run, told from the names alone. The loader is complete if and only if the
  data leaves room in the buffers, and links an existing descriptor if and only if there is any data.

## Where comments and code differ

- `components/cxx/cxx_guards.cpp:78-82` says the task will eventually get through because the semaphore is given once
  for every waiter. A waiter of another guard can take that token: `StaticGuards.NestedInitialiserLosesWakeup`. When
  the task still gets through is stated in `StaticGuards.WaiterGetsThroughIff`.
- `components/app_update/esp_ota_ops.c:421` writes the last cached bytes to flash that is not always erased:
  `OtaWrite.FlushCanMiss`, `OtaWrite.FlushIsErasedIff`. Lines 177-186 erase for the size given, and lines 236-253 and
  302 do not check it: `OtaWrite.SizedCanOverrun`, `OtaWrite.SizedUpdate`.
- `components/app_update/esp_ota_ops.c:534-539` erases both otadata sectors to choose the factory application. Between
  the two, a third application can be the one booted: `OtaSelect.FactoryCutCanMiss`, `OtaSelect.FactoryCutIsSafeIff`.
- `components/app_update/esp_ota_ops.c:508-515` counts on from a stored sequence number of zero, which can lead to zero
  again; lines 612-616 then boot another slot than the one set: `OtaSelect.SwitchCanFail`, `OtaSelect.SwitchIsBootedIff`.
- `components/esp_driver_dac/dac_continuous.c:535` links descriptor -1 if the buffer is empty, which line 505 lets
  through: `DacCyclic.Channel.WriteCyclically`.
- `tools/idf.py:565` warns that only the first of several equal commands is executed. Each time such a command is put
  in front of one that needs it, the last of the waiting ones is taken, so the equal commands take turns:
  `Repeats.SecondIsRun`. Exactly when the first is executed is stated in `Forecast.FirstIsRunIff`.
- `tools/mkdfu.py:184-188` describes the chunks of a file; with a part size of 0 there are none:
  `DfuWriter.ChunksTileIff`.
- `components/app_trace/app_trace_util.c:95` and `:136` add without a check. A request near 2^32 wraps around and is
  reported as granted while the index moves backwards. The contracts of the ring say so, and the protocol never
  makes such a request.

## Model

| member | source | states |
|---|---|---|
| RingBuffer.Ring.Produce | components/app_trace/app_trace_util.c:89-129 | a request is granted exactly if it is at most the largest contiguous region of the present shape; a granted region is disjoint from the queued bytes, which stay as they were, and its bytes are appended to the queue; a refusal changes nothing; a request that wraps 32 bits is reported as granted and moves the index back |
| RingBuffer.Ring.Reserve | components/app_trace/app_trace_util.c:89-129 | the indices alone: every queued byte keeps its slot through wrapping early, shrinking and the restart of an emptied ring |
| RingBuffer.Ring.Consume | components/app_trace/app_trace_util.c:131-155 | a request is granted exactly if the reported read size covers it, and then removes exactly that prefix of the queue and points at those bytes |
| RingBuffer.Ring.Release | components/app_trace/app_trace_util.c:131-155 | the bytes that stay queued keep their slots although the full size comes back at the wrap |
| RingBuffer.Ring.ReadSize | components/app_trace/app_trace_util.c:157-168 | the reported bytes lie one behind the other from the read index; zero exactly if nothing is queued |
| RingBuffer.Ring.WriteSize | components/app_trace/app_trace_util.c:170-184 | zero exactly if only the slot that tells full from empty is left |
| RingBuffer.Push | components/app_trace/app_trace_membufs_proto.c:206-216 | a chunk of at most the reported write size is always granted, so the assertion behind it never fires, and it ends up at the end of the queue |
| RingBuffer.Move | components/app_trace/app_trace_membufs_proto.c:125-136 | up to the reported read size is always granted, and the oldest bytes continue the block in order |
| RingBuffer.DownWrite | components/app_trace/app_trace_membufs_proto.c:194-220 | exactly a prefix of the host's data is queued, and bytes are dropped only when the ring is full |
| RingBuffer.Pump | components/app_trace/app_trace_membufs_proto.c:117-137 | block contents followed by pending contents are the same byte sequence before and after, and it stops only at a full block or an empty ring |
| TraceWire.DecodeEncoded | components/app_trace/app_trace_membufs_proto.c:261-274 | reading an encoded packet gives back core and payload and goes on exactly behind it |
| TraceWire.WireAppend | components/app_trace/app_trace_membufs_proto.c:261-274 | sending one more packet appends exactly its encoding to the stream |
| TraceWire.HostReadsPrefix | components/app_trace/app_trace_membufs_proto.c:14-28 | whatever part of the stream was handed over, the host reads an initial part of the packets and less than one packet of rest, never an unfinished packet; the whole stream reads back as all packets |
| MemBufsProto.MemBufs.constructor | components/app_trace/app_trace_membufs_proto.c:56-72 | a fresh protocol object is valid with both markers zero, at block zero, with nothing sent and nothing handed over |
| MemBufsProto.MemBufs.FlipBlock | components/app_trace/app_trace_membufs_proto.c:91-95 | the old block up to its marker is what the host is handed, the block number is advanced by one in 32 bits, and the new block is the other one and empty |
| MemBufsProto.MemBufs.TakeInbox | components/app_trace/app_trace_membufs_proto.c:97-115 | exactly the accepted prefix of the data the host left in the block is queued for delivery, all of it unless the down ring is full then, and that is put on record |
| MemBufsProto.MemBufs.TakePending | components/app_trace/app_trace_membufs_proto.c:116-137 | pending bytes continue in the new block without loss or reordering, and afterwards pending bytes imply a used block |
| MemBufsProto.MemBufs.Swap | components/app_trace/app_trace_membufs_proto.c:80-140 | the stream is unchanged by a switch, accepted or refused; a refusal changes nothing; an accepted one hands over exactly the marked part and lowers marker plus pending bytes by it; the accepted part of the inbox is put on record |
| MemBufsProto.MemBufs.SwapWaitUs | components/app_trace/app_trace_membufs_proto.c:142-153 | it asks until a switch is accepted or the timer has expired after a refusal, no more and no less, and keeps the stream either way; on success exactly a prefix of the accepting answer's inbox has been accepted, all of it unless the down ring is full, nothing if no host data was pending |
| MemBufsProto.MemBufs.Wait4Buf | components/app_trace/app_trace_membufs_proto.c:222-259 | a switch is asked for until it is accepted or the timer has expired; a granted pointer is the end of the stream, in the ring or in the block; without one, neither place has room |
| MemBufsProto.MemBufs.ProducePending | components/app_trace/app_trace_membufs_proto.c:295-295 | taking pending space extends the stream at its end only, and never with an unused block in front of it |
| MemBufsProto.MemBufs.ProduceInBlock | components/app_trace/app_trace_membufs_proto.c:326-329 | taking block space extends the stream at its end only, which needs an empty pending ring |
| MemBufsProto.MemBufs.Allocate | components/app_trace/app_trace_membufs_proto.c:285-331 | with nothing pending the region is at the end of the block if it fits there, and else in the ring if that has room, without asking the host; with bytes pending the host is asked once first; otherwise it is asked until it accepts or the timer has expired; the granted region holds the newest bytes of the stream, and older bytes are unchanged |
| MemBufsProto.MemBufs.UpBufferGet | components/app_trace/app_trace_membufs_proto.c:276-337 | a packet above the block size is refused at once without asking the host; the place of another is chosen as above; a refusal comes only after the host was asked until it accepted or the timer had expired, and means there is no room; a grant is a begun packet at the end of the unchanged stream |
| MemBufsProto.MemBufs.PktStart | components/app_trace/app_trace_membufs_proto.c:261-267 | the header, with the block size, the core bit and a written size of zero, is stored at the front of the region; everything older is unchanged |
| MemBufsProto.MemBufs.UpBufferPut | components/app_trace/app_trace_membufs_proto.c:269-274 | the newest packet is marked as written and no other byte of the stream changes |
| MemBufsProto.Finished | components/app_trace/app_trace_membufs_proto.c:269-274 | header, payload and mark together are exactly the encoding the host expects behind the older stream |
| MemBufsProto.MemBufs.Send | components/app_trace/app_trace_membufs_proto.c:276-348 | after a tracing call the stream is exactly the packets sent before and, on success, this one; it fails only if the packet is too large, or if there is no room after the host was asked until it accepted or the timer had expired |
| MemBufsProto.MemBufs.Flush | components/app_trace/app_trace_membufs_proto.c:350-372 | with at most the given number of bytes in the block nothing is done; else it terminates, a failure means the host refused to the end with too much data left, and with nothing pending exactly one switch is asked for; a successful full flush leaves block and pending ring empty and everything sent handed over |
| MemBufsProto.MemBufs.DownBufferGet | components/app_trace/app_trace_membufs_proto.c:155-186 | queued host bytes are delivered in order: as many as asked for, or as lie without a gap, without asking the host; with none queued, switches are asked for while the host reports data and the timer is looked at only otherwise, answer by answer, until a switch has brought data or the timer has expired; nothing is returned only then, and not one byte has been accepted by that time |
| MemBufsProto.MemBufs.HostSees | components/app_trace/app_trace_membufs_proto.c:80-140 | in every valid state the host can read an initial part of the packets sent, and all of them when the block is unused |
| MemBufsProto.MemBufs.Session | components/app_trace/app_trace_membufs_proto.c:155-372 | for every sequence of send, flush and receive calls against every host: the host reads an initial part of the packets whose calls succeeded, and all after a full flush; what was delivered is an initial part of what was accepted, and that is, over the answers used so far and in their order, a prefix of the inbox of each accepted switch with host data pending, the whole inbox unless the down ring was full, and nothing else |
| StaticGuards.GuardsKept | components/cxx/cxx_guards.cpp:113-211 | one step of any task keeps the account of every guard, and a ready guard stays ready with no further acquire returning 1 |
| StaticGuards.TokensKept | components/cxx/cxx_guards.cpp:66-111 | one step of any task keeps: with nothing pending, tokens and tokens still to be given cover the tasks at the semaphore |
| StaticGuards.AtMostOneInitialiser | components/cxx/cxx_guards.cpp:113-211 | in every schedule a guard is never ready and pending at once, its winning acquires are its releases, its aborts and the one pending, it is released at most once, and two tasks never hold the mutex |
| StaticGuards.NoneAfterRelease | components/cxx/cxx_guards.cpp:153-161 | after a release no schedule makes an acquire of that guard return 1 |
| StaticGuards.NoWaiterStranded | components/cxx/cxx_guards.cpp:66-111 | in every schedule the waiting count is the number of tasks inside the wait, and with nothing pending there is a token, given or about to be, for every task at the semaphore |
| StaticGuards.QuietMeansReturned | components/cxx/cxx_guards.cpp:66-96 | when every call has gone as far as it can and nothing is pending, all calls have returned |
| StaticGuards.QuietWaitHasInitialiser | components/cxx/cxx_guards.cpp:66-96 | a wait that lasts has a pending guard behind it, and a release can come next if and only if the task that initialises some pending guard is outside the three functions |
| StaticGuards.StepUsesPotential | components/cxx/cxx_guards.cpp:74-94 | every step of a started call lowers a bound, although waiters loop on tokens given for other guards |
| StaticGuards.CallsComeToRest | components/cxx/cxx_guards.cpp:66-211 | in every schedule the started calls take a bounded number of steps, and at rest with nothing pending they have all returned |
| StaticGuards.ReleaseRun | components/cxx/cxx_guards.cpp:105-111 | a release adds as many tokens as there are waiters, whatever their number, makes the guard ready and returns |
| StaticGuards.AbortRun | components/cxx/cxx_guards.cpp:192-211 | an abort adds as many tokens and returns too, but the guard is neither pending nor ready behind it |
| StaticGuards.AbortedIsWonAgain | components/cxx/cxx_guards.cpp:123-146 | after an abort the next acquire returns 1, whichever task makes it |
| StaticGuards.ReadyRun | components/cxx/cxx_guards.cpp:136-146 | an acquire of a ready guard returns 0 and leaves everything as it was |
| StaticGuards.WokenReturns | components/cxx/cxx_guards.cpp:66-146 | a waiter that gets a token after its guard has ended uses it up and returns: 0 after a release, 1 after an abort |
| StaticGuards.CallsTakeEffect | components/cxx/cxx_guards.cpp:113-211 | in every schedule the releases and the aborts of a guard are exactly those called, but for the ones still on their way, and as long as it is not ready every acquire of it has returned 1 or is still on its way |
| StaticGuards.HelpWakes | components/cxx/cxx_guards.cpp:66-111 | from any state at rest with an idle task that owns a pending guard or can begin one, there is a schedule that brings the waiter of a guard no longer pending out of its wait |
| StaticGuards.StuckForever | components/cxx/cxx_guards.cpp:74-94 | for any number of tasks and guards: with no token left, nobody signalling, and every guard ready or owned by a task at the semaphore, no schedule whatever moves a task that is there |
| StaticGuards.WaiterGetsThroughIff | components/cxx/cxx_guards.cpp:74-94 | at rest, some schedule brings a waiter of a guard that is no longer pending out of its wait if and only if there is an idle task that owns a pending guard, or an idle task and a guard neither pending nor ready |
| StaticGuards.NestedInitialiserLosesWakeup | components/cxx/cxx_guards.cpp:74-111 | a schedule of three tasks and two guards without a circular wait after which task 1, whose guard is ready, is at the semaphore in every continuation |
| OtaWrite.Partition.EraseRange | components/app_update/esp_ota_ops.c:246-248 | the flash model: on success exactly the range is erased, on failure nothing changes |
| OtaWrite.Partition.Write | components/app_update/esp_ota_ops.c:302-302 | the flash model: bytes come out as written only where they were erased, and programming others is recorded |
| OtaWrite.RangeIs | components/app_update/esp_ota_ops.c:239-253 | the erased range starts and ends at sector edges, starts not before the bytes written, and together with what was erased before covers the write |
| OtaWrite.FeedKeeps | components/app_update/esp_ota_ops.c:236-307 | with encryption, any write keeps 16-byte alignment and an erased area that is not behind the data; it is strictly ahead unless the blocks end at a sector edge with no more cached than before |
| OtaWrite.PlainKeeps | components/app_update/esp_ota_ops.c:236-307 | without encryption any write keeps the erased area ahead of the data |
| OtaWrite.SplitIs | components/app_update/esp_ota_ops.c:270-300 | the number of bytes written and cached is determined by the total alone: whole 16-byte blocks are written, the rest is cached |
| OtaWrite.FlushIsErasedIff | components/app_update/esp_ota_ops.c:420-429 | over all sequences of call sizes, with L bytes passed in all, L0 of them before the last call, and sectors of S bytes: the final flush meets flash that was never erased if and only if 0 < L mod S <= L0 mod 16 |
| OtaWrite.FlushCanMiss | components/app_update/esp_ota_ops.c:420-429 | writes of 1 and of 4096 bytes make an update that succeeds and has programmed its last block over a sector that was never erased, whatever was there |
| OtaWrite.OtaEntry.EraseAhead | components/app_update/esp_ota_ops.c:239-253 | everything up to the end of the coming write is erased, no programmed byte of the image is |
| OtaWrite.OtaEntry.Program | components/app_update/esp_ota_ops.c:302-305 | exactly the next bytes of the image are programmed at their place, or nothing |
| OtaWrite.OtaEntry.TopUp | components/app_update/esp_ota_ops.c:274-292 | flash and cache together continue to be the image while the cache fills up and is written out, always at 16-byte offsets |
| OtaWrite.OtaEntry.WriteBlocks | components/app_update/esp_ota_ops.c:294-305 | the rest goes to flash in whole blocks and the tail to the cache, in order |
| OtaWrite.OtaEntry.EspOtaWrite | components/app_update/esp_ota_ops.c:220-313 | after every successful call flash up to the written size, as far as it was erased, followed by the cache is all data passed so far; with sequential erasing nothing is programmed over unerased flash, and flash behind the erased area is untouched; without it exactly the bytes from the old to the new written size are programmed, over whatever is there; a wrong first byte is refused and keeps the state; without flash faults and within the partition it succeeds; the fill of the cache turns from zeros to ones exactly when a cache in use fills up |
| OtaWrite.OtaEntry.EspOtaEnd | components/app_update/esp_ota_ops.c:403-449 | refused exactly if nothing was written; with everything erased the whole image is a prefix of flash whatever the verification says; in any case the rest of the image is programmed at its place, and over unerased flash exactly if one of the 16 bytes is not clean; behind the image the last block is filled with zeros, or with ones if the cache had been written out before |
| OtaWrite.EspOtaBegin | components/app_update/esp_ota_ops.c:122-188 | a successful begin gives a valid empty update with the erased part in front: the whole partition for no size or an unknown one, and else whole sectors, the fewest that hold the image; nothing if erasing is left to the writes; without flash faults it succeeds if what it erases fits the partition |
| OtaWrite.WholeUpdate | components/app_update/esp_ota_ops.c:122-449 | over any list of chunks, a successful encrypted sequential update leaves their concatenation as a prefix of flash and programs nothing unerased; if the flush misses, that holds up to the last block, which is programmed over exactly the bytes there that were not clean before the update; without flash faults and within the partition it ends as the data tells: a wrong first byte or a failed verification is refused, less than one block is nothing written, and else it succeeds |
| OtaWrite.SizedUpdate | components/app_update/esp_ota_ops.c:122-449 | over any list of chunks, a successful update begun with a size or with none, encrypted or not: with an unknown size, or within the size given, flash holds the image as passed and nothing is programmed over; in general the image comes out as passed up to the erased size, and behind that bytes are programmed over if and only if some byte up to the programmed end was not clean before; without flash faults and within the partition it ends as the data tells |
| OtaWrite.SizedCanOverrun | components/app_update/esp_ota_ops.c:177-186 | begun with 100 bytes and passed 5000, an update succeeds and has programmed over what was in the next sector |
| OtaSelect.NextSequence | components/app_update/esp_ota_ops.c:508-515 | the search returns the least number from the present one on with the slot's remainder |
| OtaSelect.NextIsUnique | components/app_update/esp_ota_ops.c:508-515 | there is only one such number |
| OtaSelect.NextStandsFor | components/app_update/esp_ota_ops.c:612-616 | the number found selects the slot asked for at the next boot, and is zero exactly for a stored zero and the last slot |
| OtaSelect.Active | components/bootloader_support/src/bootloader_common_loader.c:121-145 | the chosen entry is usable and no usable entry has a larger number; none is chosen only if none is usable |
| OtaSelect.Table.Default | components/app_update/esp_ota_ops.c:567-592 | the factory application if there is one, else the lowest slot there is, else the test application, else none |
| OtaSelect.UnusableIsIgnored | components/app_update/esp_ota_ops.c:595-622 | an unusable record in the other sector never changes what is booted |
| OtaSelect.NewerIsBooted | components/app_update/esp_ota_ops.c:595-622 | a usable record of at least the active number in the other sector is booted, ties included |
| OtaSelect.SwitchIsBootedIff | components/app_update/esp_ota_ops.c:506-521 | a completed switch boots the requested slot unless the active number is a stored zero and the slot is the last one but not the one that zero stands for; then the old choice stays |
| OtaSelect.SwitchCanFail | components/app_update/esp_ota_ops.c:508-515 | with three slots, a stored zero and slot 2 asked for, the completed switch boots slot 0 |
| OtaSelect.CutIsSafe | components/app_update/esp_ota_ops.c:451-465 | every cut point of a switch to a slot boots the old application or the requested slot |
| OtaSelect.OtaDevice.RewriteOtaSeq | components/app_update/esp_ota_ops.c:451-465 | one sector is erased and rewritten with a matching checksum; an operation that fails leaves the sector as it was, blank, or with any record whose checksum does not match, so that flash is at one of the cut points, and the other sector is untouched |
| OtaSelect.OtaDevice.EspRewriteOtaData | components/app_update/esp_ota_ops.c:477-522 | refused without otadata or for a slot beyond the count, changing nothing; else a record of the new state (new if first boots are monitored, else undefined) is written to the sector that is not active; even a fault leaves the old choice or the new one, and success boots the slot except in the case of the stored zero |
| OtaSelect.OtaDevice.EspOtaSetBootPartition | components/app_update/esp_ota_ops.c:524-565 | an unverified image is refused and changes nothing; success boots the factory application, and any fault on the way leaves one of the cut points of erasing the sectors in turn; a slot, or slot 0 for the test application, is switched to as above |
| OtaSelect.FactoryCutIsSafeIff | components/app_update/esp_ota_ops.c:534-542 | every cut point of the switch to the factory application boots the old application or the factory application, if and only if sector 0 is not the active one, or the record in sector 1 is unusable or stands for the same slot, or there is no OTA slot |
| OtaSelect.FactoryCutCanMiss | components/app_update/esp_ota_ops.c:534-542 | with numbers 3 and 2 and two slots, a cut after the first erase boots slot 1, which was neither booted nor asked for |
| OtaSelect.RollbackIsSound | components/app_update/esp_ota_ops.c:773-825 | a rollback is reported possible if and only if there is a slot and an active entry, and marking that invalid boots an image that verifies, of the other entry or of the factory application |
| OtaSelect.OtaDevice.CurrentOtaIsWorkable | components/app_update/esp_ota_ops.c:829-868 | each result has its exact cause: no otadata, no active entry or slot, no possible rollback; confirming changes the state of the active entry alone and not the choice, and nothing at all if it is confirmed already; a restart marks it invalid and boots a verified image, both succeed without flash faults, and a fault leaves a cut point of the active sector |
| OtaSelect.CutWhileConfirmingRollsBack | components/app_update/esp_ota_ops.c:839-842 | a power cut after the erase of a confirmation boots what a rollback would boot |
| OtaSelect.SwitchOtaPartition | components/app_update/otatool.py:89-190 | a slot that does not exist is an error and nothing is written; else number and checksum of one sector are patched, counting on from the larger valid entry, and the state byte stays as it was |
| OtaSelect.ToolAgreesWithDevice | components/app_update/otatool.py:94-147 | with no entry marked invalid or aborted, tool and device count on from the same entry and write to the same sector |
| OtaSelect.ToolSwitchIsBootedIff | components/app_update/otatool.py:174-184 | with the patched sector not marked invalid or aborted, the tool's switch is booted except in the case of the stored zero; with a marked sector nothing changes, so the slot is booted if and only if it was before |
| OtaSelect.ToolCanFailToSwitch | components/app_update/otatool.py:174-184 | a state after a rollback in which the tool's switch to slot 1 still boots slot 0 |
| SplitArgv.RemainingStep | components/console/split_argv.c:47-95 | one turn of the state machine moves the recursive tokenizer on by exactly the character read, in each of the five states |
| SplitArgv.TurnKeeps | components/console/split_argv.c:42-101 | a turn keeps what the whole line is split into |
| SplitArgv.Scan | components/console/split_argv.c:42-101 | the loop never writes past what it has read, so the tokens are those of the original line although it is overwritten; each pointer is where its token starts, and nothing behind the line is touched |
| SplitArgv.EspConsoleSplitArgv | components/console/split_argv.c:33-112 | the arguments are those of the recursive tokenizer on the original line, each a terminated string inside the buffer, at most `argv_size - 1` of them, followed by NULL; entries behind that and memory behind the line are unchanged |
| SplitArgv.SplitOfJoin | components/console/split_argv.c:49-107 | quoting, escaping and joining any list and splitting it again gives the list back, empty strings included, as far as there is room |
| SplitArgv.RoundTrip | components/console/split_argv.c:33-112 | the same for the list stored as a C string in memory |
| SplitArgv.ArgsNulFree | components/console/split_argv.c:43-46 | no argument of a C string holds a NUL |
| SplitArgv.BareArg | components/console/split_argv.c:49-95 | an argument that does not begin with a quote, up to a space or the end of the line: bytes stand for themselves, quotes included, a backslash before a backslash, quote or space for that byte, and before any other byte for nothing |
| SplitArgv.QuoteArg | components/console/split_argv.c:49-95 | the same for an argument in quotes, up to the next quote, where a space stands for itself |
| SplitArgv.EveryText | components/console/split_argv.c:42-101 | every text is such an argument and its end, a last backslash included, so the two rows above say what any line is split into |
| SplitArgv.SplitOfBare | components/console/split_argv.c:76-83 | non-empty words with a backslash before each backslash, quote and space, joined with spaces, are split into the words again |
| Scheduler.BringDependencies | tools/idf.py:608-629 | the dependencies not run yet come before the task, for each the last one waiting or else a fresh one that was neither waiting nor run; it counts as processed exactly if all have been run |
| Scheduler.BringOrderDependencies | tools/idf.py:631-635 | of each order dependency that waits, the last one comes to the front, and nothing is added or lost |
| Scheduler.PopKeeps | tools/idf.py:637-643 | taking a ready task off keeps the order of all that was run and runs no name twice |
| Scheduler.Turn | tools/idf.py:602-643 | every turn leaves fewer commands unseen, or a shorter list, or a front task on which less depends |
| Scheduler.RunIsNeeded | tools/idf.py:600-643 | when the list is empty, what was run is exactly the dependency closure of the requested names |
| Scheduler.ExecuteTasks | tools/idf.py:600-643 | the loop terminates; it runs exactly the dependency closure of the requested names, once each, every dependency before its dependent and every requested order dependency before its dependent; requested tasks run with their own options, and a list that is in order already runs as it stands; the lists passed through are a history of turns |
| Repeats.OccTurn | tools/idf.py:608-635 | a turn that moves a name puts the last of its waiting tasks before the others, and any other turn keeps their order |
| Repeats.RunsRotated | tools/idf.py:600-643 | over every run, the task of a name that is run is the one brought to the front of its equals by the turns that moved the name |
| Repeats.FirstIsRunByCount | tools/idf.py:558-643 | over all lists, the first of k equal commands is run if and only if the number of turns that moved it is a multiple of k |
| Repeats.MovedIff | tools/idf.py:600-643 | a requested name is moved at all if and only if something listed before its first task brings it, by dependencies or requested order dependencies, directly or not |
| Repeats.MovedOnce | tools/idf.py:600-643 | a name is moved at most once if no command lists behind it something that needs it |
| Repeats.FirstIsRunIff | tools/idf.py:558-643 | the first of several equal commands is run if nothing listed before it brings it; and, if no command lists behind that name something that needs it, only then: otherwise the last one is run; for every list the exact condition is that of `Forecast.FirstIsRunIff` |
| Repeats.SecondIsRun | tools/idf.py:558-643 | flashing, then the application twice, where flashing needs the application: the second of the two is run and the first is not |
| Forecast.NextIsSmaller | tools/idf.py:600-643 | the loop on names alone uses up commands not seen, the list, or the rank of its front, so that the moves it is going to make can be counted beforehand |
| Forecast.MovesAreForecast | tools/idf.py:600-643 | over every run, the turns in which a waiting task of a name is put in front are as many as the loop on names tells from the declarations and the list |
| Forecast.FirstIsRunIff | tools/idf.py:558-643 | for all declarations and lists, the first of k equal commands is run if and only if the number of moves told from the names on the command line is a multiple of k |
| DacCyclic.Channel.LoadDataIntoBuf | components/esp_driver_dac/dac_continuous.c:457-474 | exactly as many samples as fit are stored, each moved by the offset in 8 bits and kept in the high byte of its slot |
| DacCyclic.Moved | components/esp_driver_dac/dac_continuous.c:457-474 | the sample put out is the sample plus the offset, less 256 if that does not fit a byte |
| DacCyclic.Channel.LoadNext | components/esp_driver_dac/dac_continuous.c:524-533 | one descriptor takes the next samples in order, as many as fit of all that is left or, near the end, of half of it, and what is loaded so far stays as it was |
| DacCyclic.SpreadOn | components/esp_driver_dac/dac_continuous.c:524-533 | the split of the rest keeps the relation between samples placed, samples left and descriptors used |
| DacCyclic.SpreadEnd | components/esp_driver_dac/dac_continuous.c:521-533 | the loop ends with everything placed if and only if the data is strictly smaller than all buffers |
| DacCyclic.Channel.WriteCyclically | components/esp_driver_dac/dac_continuous.c:500-545 | refused exactly if the data exceeds all buffers; the descriptor linked behind the loop exists if and only if the data is not empty, and then the buffers in order hold the loaded data plus the offset, the used descriptors form one ring, and everything is loaded if and only if `len * coeff < desc_num * buf_size` |
| Cpio.FieldValue | tools/mkdfu.py:66-67 | an eight-character hexadecimal field reads back as its value if that is below 2^32, else as a smaller one |
| Cpio.FieldsReadBack | tools/mkdfu.py:61-87 | the same for all the fields of a header |
| Cpio.HexReads | tools/mkdfu.py:66-67 | the hexadecimal digits printed for any number read back as it, and are more than eight only from 2^32 on |
| Cpio.DigitsAre | tools/mkdfu.py:66-67 | the reader takes the sixteen digits of either case for their values, and no other byte |
| Cpio.FileHeaderReads | tools/mkdfu.py:61-87 | the header of a file holds magic, mode 0100644, the two sizes and else zeros, each in its place |
| Cpio.TrailerHeaderReads | tools/mkdfu.py:69-71 | that of the trailer has mode 0 and one link |
| Cpio.EntryBeginsRight | tools/mkdfu.py:235-246 | the reader takes nothing for an entry that does not begin with the magic |
| Cpio.PadBytes | tools/mkdfu.py:131-134 | the result is the bytes followed by the fewest zeros that reach a multiple |
| Cpio.EntryReadsBackIff | tools/mkdfu.py:235-246 | a printed entry reads back as itself and what follows, if and only if its sizes are below 2^32 and its name is free of NUL |
| Cpio.ArchiveReadsBackIff | tools/mkdfu.py:198-209 | an archive reads back as its entries in order and byte for byte, if and only if all are printable and none has the trailer's name |
| DfuWriter.ChunksTileIff | tools/mkdfu.py:179-196 | the chunks concatenate to the file at contiguous addresses from the flash address on, if and only if the part size is not 0 or the file is empty |
| DfuWriter.ChunkShape | tools/mkdfu.py:179-196 | no chunk is empty or above the part size, all but the last are full, and chunk k is named after k |
| DfuWriter.DecimalReads | tools/mkdfu.py:194-194 | the number in the name of a chunk is printed in decimal without leading zeros |
| DfuWriter.PartNamesDiffer | tools/mkdfu.py:194-194 | chunks of one file have different names |
| DfuWriter.ChunksListable | tools/mkdfu.py:179-196 | a file named neither like the trailer nor with a NUL adds only entries a reader finds again |
| DfuWriter.IndexReadsBackIff | tools/mkdfu.py:201-201 | dfuinfo0.dat reads back record by record if and only if every name has at most 64 bytes and no NUL, and every digest 16 bytes |
| DfuWriter.ListingShape | tools/mkdfu.py:198-206 | the archive is the index file under its name and then the pieces in order |
| DfuWriter.ContentShape | tools/mkdfu.py:203-210 | the content is the archive with its trailer, filled up with zeros to the fewest whole blocks of 10240 bytes |
| DfuWriter.UnsealSealed | tools/mkdfu.py:212-215 | the suffix passes the checks of length, signature and checksum and gives back the content, any device, the product id, vendor 0x303A and version 0x0100 |
| DfuWriter.OnlySealedPasses | tools/mkdfu.py:212-215 | no other file passes: each is a content, the four words of the suffix, signature, length, and the complement of the checksum of all that |
| DfuWriter.ParamsRead | tools/mkdfu.py:156-177 | the file of the flash parameters holds its eight words in order, at address 0 and flagged as parameters |
| DfuWriter.EspDfuWriter.AddFile | tools/mkdfu.py:179-196 | the loop adds exactly the chunks of the file, to archive and index alike |
| DfuWriter.EspDfuWriter.Finish | tools/mkdfu.py:198-218 | writes the image of all pieces, or nothing at all if an address or the product id cannot be packed |
| DfuWriter.ActionWrite | tools/mkdfu.py:249-256 | the whole run writes the image of the flash parameters and the chunks of every file in turn, or nothing |
| DfuWriter.ImageReadsBackIff | tools/mkdfu.py:198-218 | a device unpacking the image finds the index first and then exactly the pieces, in order and byte for byte, if and only if all can be listed and the index is within the sizes of the format |
| DfuWriter.InputsReadBack | tools/mkdfu.py:249-256 | from the files on the command line to the device: it finds the index, the parameters and the chunks of every file in turn, and reads the records of the index as they were meant if and only if every name has at most 64 bytes and every digest 16 |
| SplitPaths.WayJoins | tools/split_paths_by_spaces.py:184-211 | joining what a mask gives restores the input, for every mask |
| SplitPaths.WaysDiffer | tools/split_paths_by_spaces.py:184-211 | different masks below 2^N give different lists for parts without spaces |
| SplitPaths.EveryWayArises | tools/split_paths_by_spaces.py:148-160 | every list of paths that joins to the text is what some mask below 2^N gives |
| SplitPaths.SelectiveJoin | tools/split_paths_by_spaces.py:202-211 | the loop over accumulated parts computes the list of the mask |
| SplitPaths.NonEmptyOn | tools/split_paths_by_spaces.py:153-153 | empty members of a list are left out, and the others keep their order |
| SplitPaths.SplitPathsBySpaces | tools/split_paths_by_spaces.py:120-181 | a text without spaces is returned as it is; otherwise a split is reported exactly if one and only one list that joins to the trimmed text has all its non-empty members existing, and it is that list without its empty members; none and several are told apart |

## Left out

Within the modelled components:

- MemBufsProto.MemBufs.DownBufferGet: the host is a finite script of answers, after which it refuses with the timer expired; the original would wait on while a host keeps reporting data and refusing the switch.
- MemBufsProto.MemBufs.Send: getting, filling and putting a buffer is one step; the original documents that a task interrupted in between exposes an unfinished packet.
- MemBufsProto.MemBufs.constructor: only the 16-bit header of the non-SystemView configuration with a pending buffer is modelled, with blocks of 4 to 0x7FFF bytes and rings below 2^31 bytes, and host data that fits into a block.
- StaticGuards.NoWaiterStranded: the mutex and the semaphore exist and the scheduler is running from the start; creating them lazily and the path before the scheduler starts are not modelled, and the number of tasks is at most INT_MAX, the limit of the semaphore.
- OtaWrite.OtaEntry.EspOtaWrite: after a flash fault the contract only says what was programmed, not that the update can go on; sizes do not reach 2^32.
- OtaWrite.EspOtaBegin: image sizes whose rounding passes 2^32 are excluded; checks of the running partition and pending verification are not modelled.
- OtaWrite.WholeUpdate: states the encrypted, sequentially erased update; the unencrypted one has no flush and is covered call by call.
- OtaSelect.SwitchIsBootedIff: sequence numbers stay below UINT32_MAX.
- OtaSelect.CutIsSafe: a record written in part is taken not to match its checksum.
- OtaSelect.OtaDevice.EspRewriteOtaData: at most 16 OTA slots exist, as the original asserts.
- Scheduler.ExecuteTasks: command names are canonical, dependency lists have no repetition and the dependencies have no cycle.
- DacCyclic.Channel.WriteCyclically: what the access outside the descriptors does for an empty buffer is not modelled, the call ends there; there are at least two descriptors, and the buffer size is a multiple of the bytes per sample.
- DfuWriter.EspDfuWriter.AddFile: names are byte strings; files of the same name on the command line are not compared.

Not modelled at all:

- `esp_ota_write_with_offset`, the list of OTA handles, partition-table images, copying to a final partition, anti-rollback and key revocation.
- The flash driver, image verification, CRC and MD5: a flash model and function parameters take their place.
- The interrupt-driven descriptor pool of `dac_continuous_write` and asynchronous writing.
- Option parsing, printing and running of tasks in `idf.py`; argument parsing, sorting and JSON input of `mkdfu.py`; the warnings of the path splitter.
- TLS, sockets, ADC, I2C, eFuse tables and the documentation build: their behaviour lies in hardware or libraries, or would add only easy members.
