# Delta updates: a verified model of the on-device patcher

The program keeps a compressed delta patch in flash, applies it to the running
image, writes the new image to a second slot and asks the bootloader to boot it.
This project models that pipeline in Dafny, layer by layer, and proves that each
layer refines a simple mathematical function.

- `Bytes.dfy`: bytes, MSB-first bit strings, the bitwise operators.
- `HeatshrinkSpec.dfy`: heatshrink decoding as a function of all the bits (window
  bits 4 to 15, lookahead bits 3 to below the window bits), and as an expansion of
  tokens; the two are proved equal. `HeatshrinkWindow.dfy`: the ring window.
  `HeatshrinkDecoder.dfy`: the suspendable decoder, a class over its buffer.
- `Varint.dfy`: signed sizes. `PatchSpec.dfy`: `Apply`, the one-pass meaning of a
  whole patch. `PatchFacts.dfy`: how it extends, what it accounts for.
  `RoundTrip.dfy`: patches as a host makes them. `TruncatedPatches.dfy`: patches whose end
  is missing.
- `PatchSlices.dfy`: `WriteList`, the sequence of writes that a patch makes when it is
  offered in given chunks. `PatchHalts.dfy`: the error with which a run stops while it is
  offered a patch. `PatchRuns.dfy`, `PatchTrack.dfy`: what a state in the middle
  of a run says about the meaning and the writes of the whole patch.
- `PatchReader.dfy`: chunks and the patch reader. `ApplyPatch.dfy`: the resumable patch
  applier, its drivers, dump and restore.
- `FlashSpec.dfy`, `EraseAhead.dfy`, `SlotContents.dfy`, `FlashMem.dfy`: NOR flash, the
  write callback that erases ahead, what it leaves in the slot, and the three cursors.
- `PatchHeader.dfy`, `Delta.dfy`: the "NEWP" header and `delta_check_and_apply`.
- `PatchPlans.dfy`, `Encoding.dfy`, `SamplePatches.dfy`, `LongPatch.dfy`, `DeltaPatches.dfy`:
  the writes of prepared patches, the calls on them, and patches written out to the last
  bit that show which conditions are needed.
- `Formats.dfy`, `Statuses.dfy`: the byte formats and the statuses in numbers, for every
  patch.

The main results:

- **Refinement.** For every source, every patch and every way of cutting the patch into
  chunks, `process` on the chunks and then `finalize` give the status, the written
  bytes and the sequence of writes that `PatchSpec.Apply` and `PatchSlices.WriteList`
  compute from the source and the patch (`ApplyPatch.ApplyChunks`). The one condition is
  that the first chunk that is not empty decides the outer header as the whole patch
  does; without it the status is SHORT_HEADER.
- **Suspend and resume.** The same holds when the run is dumped after any number of
  chunks and restored into a new object over the same flash, which is offered the chunks
  from the restored patch offset on (`ApplyInterrupted`).
- **Patches that cannot be read to their end.** The status is the error of the slice or the
  size field that was begun before the last readable byte was taken, and else IO_FAILED
  (`ApplyPatch.CallbacksProcess`); every patch that begins with the readable part ends with
  that error (`PatchHalts.HaltsFinal`). Every proper prefix of a prepared patch ends with
  SHORT_HEADER or NOT_ENOUGH_PATCH_DATA and no request (`DeltaPatches.ApplyTruncated`).
- **Round trip.** A target cut into blocks, serialised, encoded as any heatshrink
  token list and padded is reproduced exactly, up to `delta_check_and_apply`
  (`RoundTrip.PatchRoundTrip`, `DeltaPatches.PreparedPatchSucceeds`).
- **What the slot holds.** The flash after a call is a function of the flash before it
  (`Delta.CheckAndApply`). That the slot holds the target after a success, as the upgrade
  that is then requested takes for granted, is not always so: `write_buf` is reset to zero, not
  reduced, so some write sizes run ahead of the erased pages, and a slice can be shorter
  than 128 bytes wherever a block or a chunk of the patch ends. After a success the slot
  holds the target if and only if the write sizes allow it on what the slot held before
  (`Delta.SuccessSlot`), and for every earlier content of the slot if and only if the
  writes are harmless: every byte written on unerased flash is zero, and every byte erased
  after it was written is 0xFF (`Delta.HarmlessPatch`). Both can be computed from the patch and
  the source before the call; a host can compute the second from its division into
  blocks and its compressed data (`DeltaPatches.PreparedPatchHolds`), from the blocks alone
  if no chunk ends inside a slice. A patch of less than a chunk with one diff
  block or one extra block is always stored. A patch of at most 296 bytes with extra blocks of
  4095 and 4222 bytes succeeds and leaves a wrong image in a slot that was all zeros
  (`DeltaPatches.IrregularFails`).
- **At most once.** A patch is applied by the first call that sees it or not at all,
  whatever the patch, the bootloader's answers, and whatever happens between the calls
  outside the storage partition, the swap of the slots included, if 124 bytes lie between
  the end of the new image's slot and the header (`Delta.CheckRepeatedly`). On a flash of
  whole pages that gap is exactly what is needed: with less, a patch that fits the partition
  writes the magic word again (`DeltaPatches.GapExact`). The Makefile's flash map has a far
  larger one.

The three flash partitions are a parameter (`FlashSpec.Layout`): disjoint, in the order
of the Makefile's map, the new image's slot made of whole pages. The order matters: a seek
has no lower bound (app/src/delta/delta.c:119-126), so a patch could read a slot below the
running image while it is written. Callbacks fail exactly at the
bounds that delta.c checks and at the end of the device.

Where the code and its comments differ, the model follows the code:

- `get_bits` says it suspends at once when the bits do not suffice
  (app/src/heatshrink/heatshrink_decoder.c:296-297). That holds for counts up to 8, which
  is all its callers use; for 9 to 15 bits it consumes the bits it has and loses them.
- detools.h:355-369 lets the caller cut the patch anywhere; `process_init` needs the
  whole outer header in the first chunk.
- delta.h:78-89 says that `delta_read_patch_header` returns a positive patch size;
  the code returns zero and stores the size.
- `patch_end` is computed from the cursor behind the header, so it lies 8 bytes beyond the partition
  (app/src/delta/delta.c:147-148).

Facts used by every proof about a large state are kept behind predicates of the form
`forall u :: Open(u) ==> P`, which mean P but are only unfolded where a proof says so.

## Model

| member | source | states |
|---|---|---|
| HeatshrinkDecoding.HeatshrinkDecoder.Reset | app/src/heatshrink/heatshrink_decoder.c:80-92 | the cleared window mirrors the empty history, and the decoder stands at the start of the bit string |
| HeatshrinkDecoding.HeatshrinkDecoder.Sink | app/src/heatshrink/heatshrink_decoder.c:95-114 | accepts exactly as many bytes as fit, appends their bits to the unread bits, and says FULL only when there is no room |
| HeatshrinkDecoding.HeatshrinkDecoder.GetBits | app/src/heatshrink/heatshrink_decoder.c:290-335 | up to 8 bits: all of the next bits MSB first, or NO_BITS with nothing consumed, the latter exactly when too few remain; 9 to 15 bits: bits are lost when too few remain and the buffer was not empty; over 15: NO_BITS |
| HeatshrinkDecoding.HeatshrinkDecoder.TakeBit | app/src/heatshrink/heatshrink_decoder.c:316-329 | the tested bit is the next of the unread bits, and the cursor moves on by one |
| HeatshrinkDecoding.HeatshrinkDecoder.Poll | app/src/heatshrink/heatshrink_decoder.c:135-183 | terminates; keeps the settled output of all accepted bits; MORE exactly when the room is filled; stops only when output is full or a needed field is incomplete |
| HeatshrinkDecoding.HeatshrinkDecoder.PushToWindow | app/src/heatshrink/heatshrink_decoder.c:211-213 | writing at the masked 16-bit head index keeps the ring a mirror of the unbounded history |
| HeatshrinkDecoding.HeatshrinkDecoder.ReadWindow | app/src/heatshrink/heatshrink_decoder.c:272-279 | the masked slot holds the byte output_index back in the whole history, zero before its start |
| HeatshrinkDecoding.HeatshrinkDecoder.YieldBackrefStep | app/src/heatshrink/heatshrink_decoder.c:262-286 | copies as many bytes as room and count allow, overlapping itself, and can be split over polls |
| HeatshrinkDecoding.HeatshrinkDecoder.Finish | app/src/heatshrink/heatshrink_decoder.c:337-361 | DONE exactly when no input is queued and no back-reference is pending |
| HeatshrinkDecoding.HeatshrinkDecoder.AnySchedule | app/src/heatshrink/heatshrink_decoder.c:95-183 | under any interleaving of sinks and polls the output is a prefix of what the accepted bytes decode to, and all of it once a poll stops with room left |
| HeatshrinkDecoding.HeatshrinkDecoder.SinkByte | app/src/detools/detools.c:184-195 | fed one byte at a time the decoder always accepts it, and its input buffer was empty |
| HeatshrinkDecoding.HeatshrinkDecoder.FinishResting | app/src/heatshrink/heatshrink_decoder.c:337-361 | in the patch reader, DONE exactly when everything decodable has been output |
| HeatshrinkDecoding.HeatshrinkDecoder.Restore | app/src/detools/detools.c:288-290 | a copied decoder struct stands for the same bits, history and pending output |
| HeatshrinkWindow.MirrorsPush | app/src/heatshrink/heatshrink_decoder.c:200-218 | one write keeps every slot (head - k) mod 2^w the k-th most recent byte, for k up to the window size |
| HeatshrinkWindow.HeadSlot | app/src/heatshrink/heatshrink_decoder.c:262-286 | masking finds the slot through the 16-bit wrap of head_index, at any distance |
| HeatshrinkSpec.NextWf | app/src/heatshrink/heatshrink_decoder.c:186-260 | every bit field is 1 to 8 bits wide and leads to an index and count within the window and lookahead sizes, MSB states included |
| HeatshrinkSpec.SettleIsExpand | app/src/heatshrink/heatshrink_decoder.c:125-286 | the bit-level state machine outputs exactly the expansion of the tokens in its input |
| HeatshrinkSpec.ParseEncode | app/src/heatshrink/heatshrink_decoder.c:186-260 | parsing the encoding of a token list gives the list back |
| HeatshrinkSpec.DecodeMonotone | app/src/heatshrink/heatshrink_decoder.c:135-183 | more compressed bytes never retract output |
| HeatshrinkSpec.ExpansionBound | app/src/heatshrink/heatshrink_decoder.c:230-286 | in the configuration of the firmware, decoded bytes are at most 64 times the compressed bytes |
| Varint.SizeByteBound | app/src/detools/detools.c:326-372 | a complete size has magnitude below 2^27 and the state stays within bounds |
| Varint.ShiftBound | app/src/detools/detools.c:114-115 | no shift leaves 27 bits, and the shifted field leaves the low bits free |
| Varint.ReadPacked | app/src/detools/detools.c:316-372 | reading the packed form of v gives v, for every v of magnitude below 2^27 |
| Varint.ReadSizeConcat | app/src/detools/detools.c:316-372 | reading can be suspended between any two bytes |
| PatchReading.OrShifted | app/src/detools/detools.c:114 | the OR of a shifted field adds it |
| PatchReading.PatchChunk.Get | app/src/detools/detools.c:50-80 | takes the next byte of the chunk, or reports that there is none |
| PatchReading.PatchChunk.UnpackHeaderSize | app/src/detools/detools.c:87-119 | the size of the specification's header or its error; never negative |
| PatchReading.PatchReader.Init | app/src/detools/detools.c:227-262 | the reader has taken nothing and delivered nothing |
| PatchReading.PatchReader.ReadWindowSizes | app/src/detools/detools.c:125-164 | the first byte must hold the decoder's own window sizes |
| PatchReading.PatchReader.Decompress | app/src/detools/detools.c:133-208 | terminates; delivers the next decoded bytes; 1 only with nothing delivered and the chunk exhausted; when the request is filled, no compressed byte was taken before it was needed; SINK and POLL errors cannot occur |
| PatchReading.PatchReader.UnpackSize | app/src/detools/detools.c:316-372 | over any suspension, the size that the bytes delivered encode, or overflow |
| PatchReading.PatchReader.StreamGives | app/src/detools/detools.c:133-208 | the bytes delivered are a prefix of what the bytes taken decode to |
| PatchReading.PatchReader.FewestTaken | app/src/detools/detools.c:166-205 | when a request is filled, the bytes taken are the fewest that decode to the bytes delivered |
| PatchReading.PatchReader.Destroy | app/src/detools/detools.c:210-225 | corrupt patch exactly when decoded bytes are left over |
| PatchReading.PatchReader.Restore | app/src/detools/detools.c:278-296 | the copied reader has the same past and keeps its own chunk |
| PatchSpec.ConsumeConcat | app/src/detools/detools.c:588-640 | the meaning of a decompressed stream can be cut anywhere |
| PatchSpec.HeaderPrefix | app/src/detools/detools.c:399-446 | a decided header does not depend on the bytes after it |
| PatchSpec.SixDecide | app/src/detools/detools.c:82-119 | six bytes always decide the header |
| PatchFacts.ConsumeSlice | app/src/detools/detools.c:489-538 | a slice of a data block handled at once is the same as its bytes one by one, also in how it fails |
| PatchFacts.VerdictBroken | app/src/detools/detools.c:635-639 | an error is final, whatever follows |
| PatchFacts.VerdictTrailing | app/src/detools/detools.c:622-624 | bytes after the end of the patch are always reported as already done |
| PatchFacts.AllAccounted | app/src/detools/detools.c:374-393 | in every reachable state the offset is the number of bytes written and no block reaches beyond the target, except blocks with a negative size, which cannot be finished |
| PatchFacts.SuccessAccounting | app/src/detools/detools.c:642-668 | a success returns the announced size, has written exactly that many bytes, and at most 64 for each byte of the patch |
| PatchFacts.OutputFits | app/src/delta/delta.c:50-53 | the bytes written never fill the slot |
| PatchSlices.CutConsume | app/src/detools/detools.c:489-538 | reading a stream in slices instead of bytes does not change what it means |
| PatchSlices.RequestIsSlice | app/src/detools/detools.c:497-507 | a request for a slice, answered in full or cut short by the end of a chunk, ends where the write list says, which depends only on the patch and its chunks |
| PatchSlices.JoinWrites | app/src/detools/detools.c:529-534 | the writes of a patch that succeeds are its output |
| PatchSlices.WritesInRoom | app/src/delta/delta.c:50-53 | no patch makes a write of more than 128 bytes, nor a write after one that fills the slot |
| RoundTrip.HeaderPacked | app/src/detools/detools.c:399-446 | a packed header is read back |
| RoundTrip.PlanRead | app/src/detools/detools.c:489-586 | serialised blocks are consumed to the target, and the machine is done exactly at the end |
| RoundTrip.PatchRoundTrip | app/src/detools/detools.c:759-796 | for every source, target, division into blocks and token list, the patch file applied to the source gives the target and returns its length |
| PatchPlans.PlanCut | app/src/detools/detools.c:489-538 | a patch made of blocks, in any chunks, writes each block in slices that end after 128 bytes, with the block, or where a chunk ends, up to the first that does not fit |
| PatchPlans.AlignedPlan | app/src/detools/detools.c:497-507 | if no chunk ends inside a slice, these are slices of 128 bytes and a rest for each block |
| LongPatch.LongWrites | app/src/detools/detools.c:811-817 | a file of 685 bytes with one extra block of any 600 bytes is read in two pieces and written in slices of 128, 128, 128, 63, 128 and 25 bytes |
| Encoding.DecodeLiterals | app/src/detools/detools.c:166-205 | of bytes kept as literals, k bytes of compressed data give one for every nine of their bits |
| Encoding.DecodePrefix | app/src/detools/detools.c:166-205 | the first part of compressed data decodes to the first tokens, and to nothing of a token cut short |
| Encoding.PackedBits | app/src/heatshrink/heatshrink_decoder.c:290-335 | tokens packed into bytes are read back, with less than a byte of padding |
| SamplePatches.TwinWrites | app/src/detools/detools.c:802-836 | a patch file of two extra blocks, given to the last bit, writes exactly their slices, up to the first that does not fit |
| SamplePatches.TwinApplies | app/src/detools/detools.c:838-860 | the same file applied to any source gives the two blocks |
| PatchRuns.RunMidway | app/src/detools/detools.c:588-640 | a machine that is over, or has used all decoded bytes, is what the whole stream makes of the start |
| PatchRuns.StoppedBroken | app/src/detools/detools.c:635-639 | the error of a run is the status of the whole patch, however it goes on |
| PatchRuns.StoppedAtEnd | app/src/detools/detools.c:642-668 | the status of a patch that ends here: not enough data, corrupt, or the size |
| PatchRuns.SliceCut | app/src/detools/detools.c:166-205 | the bytes that the reader delivers to one request are one slice of the write list |
| PatchHalts.HaltsFinal | app/src/detools/detools.c:759-780 | the error with which a run stops while it is offered a patch is the status of every patch that begins like it |
| PatchHalts.OfferedWhole | app/src/detools/detools.c:759-780 | a patch that succeeds, or that lacks only its end, is offered without an error; its unreadable end is an I/O failure |
| PatchTrack.StepHalts | app/src/detools/detools.c:769-771 | a step that fails while the chunk has bytes left fails with that error |
| PatchTrack.NotHalted | app/src/detools/detools.c:769-775 | a run that has been offered all of the patch without an error is one that does not stop |
| PatchTrack.StepTracks | app/src/detools/detools.c:588-634 | a step that succeeds keeps position, meaning and writes those of the whole patch |
| PatchTrack.EndsHere | app/src/detools/detools.c:642-668 | at the end of the patch, status, output and writes are those of the whole patch |
| Applying.ApplyPatch.UnpackField | app/src/detools/detools.c:448-487 | a size field read is what the specification's machine consumed |
| Applying.ApplyPatch.ProcessDfpatchSize | app/src/detools/detools.c:448-466 | refines the machine; a positive size is not implemented |
| Applying.ApplyPatch.ProcessSize | app/src/detools/detools.c:374-393 | refines the machine, with the check of the sum made modulo 2^32 |
| Applying.ApplyPatch.ProcessData | app/src/detools/detools.c:489-538 | refines the machine by one slice, or leaves an empty block |
| Applying.ApplyPatch.ProcessAdjustment | app/src/detools/detools.c:560-586 | refines the machine; done exactly when the target is complete |
| Applying.ApplyPatch.ProcessInit | app/src/detools/detools.c:399-446 | the header of the chunk, its errors included, with BAD_PATCH_TYPE before all others; a negative size cannot be |
| Applying.ApplyPatch.Step | app/src/detools/detools.c:588-634 | the machine moves on by the decompressed bytes; only the listed status codes occur; a step that succeeds gets on |
| Applying.ApplyPatch.ProcessOnce | app/src/detools/detools.c:588-640 | keeps the run on the track of the patch, decreases the termination measure, and fails only as the whole patch does; once failed, always failed |
| Applying.ApplyPatch.Process | app/src/detools/detools.c:759-780 | terminates; after a success all of the chunk is consumed; a failure, I/O failures included, has the status and the writes of the whole patch or of the header in the first chunk; once failed nothing is written; the patch offset counts the bytes offered |
| Applying.ApplyPatch.Finalize | app/src/detools/detools.c:782-796 | terminates; the status, output and writes are those of the whole patch; once failed, already failed |
| Applying.ApplyPatch.CommonFinalize | app/src/detools/detools.c:642-668 | the final status, with surplus output reported as corrupt |
| Applying.ApplyPatch.InitPatch | app/src/detools/detools.c:670-688 | at the start of source and patch; a fresh run when nothing has been written to the target, else ready to be restored |
| Applying.ApplyPatch.ApplyChunks | app/src/detools/detools.c:759-796 | over any chunks, status, output and writes are those of the whole patch if and only if the first chunk that is not empty decides the header; else SHORT_HEADER and no write |
| Applying.ApplyPatch.Lockstep | app/src/detools/detools.c:506-577 | cursors of the flash equal the offsets of the patcher, and the target cursor stays below its end |
| Applying.ApplyPatch.Restore | app/src/detools/detools.c:710-747 | after a dump between two calls, the seek succeeds and the restored run is on the same track, mid-size and mid-back-reference included, with the patch offset at the bytes offered and the other fields of the dumped object |
| Applying.HandOver | app/src/detools/detools.c:690-747 | a dump restored into a new object over the same flash stands where the run was, with the same chunks offered, the same patch size, and a patch offset of the sizes of those chunks |
| Applying.ApplyInterrupted | app/src/detools/detools.c:690-796 | chunks, a dump, a restore into a new object and the chunks from the restored patch offset on give the status, output and writes of the whole patch |
| Applying.ApplyPatch.ReadChunk | app/src/detools/detools.c:815-827 | the patch is read from the flash as it was before the run |
| Applying.ApplyPatch.CallbacksProcess | app/src/detools/detools.c:802-836 | reading in chunks of 512 bytes gives the status, output and writes of the patch; if its end cannot be read, the writes are those of the readable part and the status is the error with which the part stops while it is offered, else IO_FAILED |
| Applying.ApplyPatchCallbacks | app/src/detools/detools.c:838-860 | the same from initialisation on |
| FlashSpec.WriteEffect | app/src/delta/delta.c:26-56 | a write succeeds exactly when the slot keeps a free byte, and changes nothing outside the slot unless it fails |
| FlashSpec.WriteBytes | app/src/delta/delta.c:26-56 | every write that ends on the device, inside the slot or beyond it, ANDs each byte of the data onto what was there, or onto ones where the page was just erased; nothing else changes but the rest of that page, and the cursor is behind the data |
| FlashSpec.WriteMisses | app/src/delta/delta.c:36-48 | any other write leaves the cursor where it was and at most erases a page |
| FlashSpec.RunEffect | app/src/delta/delta.c:26-56 | a run that fits the slot changes nothing outside it and leaves the cursor behind its last byte |
| FlashDevice.FlashMem.Write | app/src/delta/delta.c:26-56 | the callback in place is the write of the specification, with the status for each way to fail |
| FlashDevice.FlashMem.FromRead | app/src/delta/delta.c:58-83 | succeeds exactly below the end of the source, with its bytes |
| FlashDevice.FlashMem.PatchRead | app/src/delta/delta.c:85-110 | succeeds exactly below patch_end and within the flash |
| FlashDevice.FlashMem.Seek | app/src/delta/delta.c:112-129 | moves the source cursor, and fails only at or beyond the end of the source |
| FlashDevice.FlashMem.Init | app/src/delta/delta.c:135-169 | cursors at the start, first page of the slot erased, everything outside the slot unchanged |
| EraseAhead.SafeStores | app/src/delta/delta.c:32-40 | with safe sizes each write lands on erased bytes, no erase destroys written bytes, and the slot is the concatenation of the writes |
| EraseAhead.EraseAheadExact | app/src/delta/delta.c:32-40 | the condition on the sizes holds if and only if every image is stored on every flash |
| EraseAhead.FixedSizeSafe | app/src/delta/delta.c:32-40 | writes of one size that divides a page, with a shorter last one, are safe |
| EraseAhead.IrregularUnsafe | app/src/delta/delta.c:40 | erasing ahead fails for the slices of blocks of 4095 and 4222 bytes: the writes end 125 bytes beyond the erased pages |
| SlotContents.CellMeans | app/src/delta/delta.c:26-56 | each byte of the slot and behind it after a run whose last write may overrun the slot: untouched, erased, as written, or as written on top of what was there, by the write sizes alone |
| SlotContents.StoredExact | app/src/delta/delta.c:26-56 | for each flash, whatever the sizes, exactly when the slot holds what was written |
| SlotContents.HarmlessExact | app/src/delta/delta.c:26-56 | for each image, whatever the sizes, exactly when it comes out right on every slot |
| SlotContents.SafeHarmless | app/src/delta/delta.c:26-56 | with safe sizes every image does |
| PatchHeader.PaddedFound | scripts/pad_patch.py:7-15 | a padded patch is announced with its size and its bytes |
| PatchHeader.HeaderBytes | app/src/delta/delta.c:207-223 | a patch is announced by the letters NEWP, with its size behind them, least significant byte first |
| PatchHeader.AnnouncedWord | app/src/delta/delta.c:211-221 | the magic word is compared as a little-endian word |
| PatchHeader.GapKeeps | app/src/delta/delta.c:225-227 | with the gap, a cleared header stays cleared through every run |
| PatchHeader.NoGapLoses | app/src/delta/delta.c:36-50 | without it, slices of 128, one of 127 that leaves one byte of the slot, and one that carries the magic word announce a patch again |
| PatchHeader.HeaderGapExact | app/src/delta/delta.c:26-56 | over all sequences of slices that a run could make, the gap of 124 bytes is exactly what a cleared header needs |
| Delta.ReadPatchHeader | app/src/delta/delta.c:207-230 | the size of an announced patch, whose magic word is cleared; else nothing changes |
| Delta.RunPatch | app/src/delta/delta.c:185-194 | the exact status of the announced patch, readable to its end or not, and the flash and cursor that its writes leave |
| Delta.RunLeaves | app/src/delta/delta.c:26-56 | the slot holds the output exactly if the write sizes allow it on what the slot held, and a cleared header stays cleared |
| Delta.CheckAndApply | app/src/delta/delta.c:175-205 | every status that is not positive is returned as it is; an upgrade is requested exactly after a positive one, which means that the header announces a target and that as many bytes were written; a reboot exactly when it is granted; the flash afterwards is a function of the flash before |
| Delta.CheckRepeatedly | app/src/delta/delta.c:175-205 | over any number of calls, with anything changed between them outside the storage partition, the patcher runs at most once, in the first call |
| Delta.SuccessSlot | app/src/delta/delta.c:185-201 | after a success the slot holds the target if and only if the patch's write sizes allow it on what the slot held |
| Delta.HarmlessPatch | app/src/delta/delta.c:185-201 | a patch that succeeds leaves its target in the slot whatever was there, if and only if its writes are harmless |
| Delta.SafePatch | app/src/delta/delta.c:185-201 | safe write sizes are enough for that |
| Delta.HeaderGone | app/src/delta/delta.c:175-205 | with the gap no call leaves a patch announced |
| DeltaPatches.PreparedPatchSucceeds | app/src/delta/delta.c:175-205 | a patch made and padded by the host is announced, succeeds and writes the target |
| DeltaPatches.PreparedPatchHolds | app/src/delta/delta.c:175-205 | for every prepared patch: the slot holds the target whatever was in it if and only if the slices of the blocks, cut by the reads of 512 bytes, are harmless |
| DeltaPatches.AlignedPatchHolds | app/src/delta/delta.c:175-205 | the same from the division into blocks alone, when no read ends inside a slice |
| DeltaPatches.ApplyPrepared | app/src/delta/delta.c:175-205 | a call on a prepared patch requests the upgrade, has written the target, and leaves it in the slot if it is always held |
| TruncatedPatches.Truncated | app/src/detools/detools.c:642-668 | every proper prefix of a prepared patch ends with SHORT_HEADER or NOT_ENOUGH_PATCH_DATA, after a part of the target |
| DeltaPatches.ApplyTruncated | app/src/delta/delta.c:195-197 | a call on such a prefix returns that status, and there is no request and no reboot |
| DeltaPatches.ApplyUnreadable | app/src/detools/detools.c:815-836 | a call on a prepared patch whose end cannot be read returns IO_FAILED, and there is no request and no reboot |
| DeltaPatches.OneBlockHolds | app/src/delta/delta.c:175-205 | a short patch of one diff block or one extra block always leaves its target in the slot |
| DeltaPatches.IrregularFails | app/src/delta/delta.c:32-40 | a given patch file with blocks of 4095 and 4222 bytes succeeds, and the slot does not hold its target if it was all zeros |
| DeltaPatches.SomeSlotFails | app/src/delta/delta.c:32-40 | every flash map with room for that patch has a flash on which this happens |
| DeltaPatches.PatchRevives | app/src/delta/delta.c:26-56 | without the gap, a given patch file leaves a patch announced after the call |
| DeltaPatches.GapExact | app/src/delta/delta.c:175-230 | on a flash of whole pages with room for a patch that fills the slot, no patch announces itself again if and only if the gap is 124 bytes or more |
| Formats.FieldExact | app/src/detools/detools.c:316-372 | a size field in numbers: sign in bit 64 of the first byte, weights 1, 64, 8192 and 1048576 |
| Formats.FieldBounds | app/src/detools/detools.c:316-372 | fewer bytes are not enough, and a fifth byte is an overflow |
| Formats.HeaderExact | app/src/detools/detools.c:82-119 | the outer header in numbers, with the same weights and no sign |
| Formats.HeaderBounds | app/src/detools/detools.c:82-119 | without a last byte, up to five bytes are SHORT_HEADER and six CORRUPT_PATCH_OVERFLOW |
| Formats.TokensExact | app/src/heatshrink/heatshrink_decoder.c:186-286 | for every literal, distance and length, the four compressed bytes and what they decode to, zeros before the begin of the output included |
| Formats.PaddedExact | scripts/pad_patch.py:7-15 | the bytes of a padded patch: NEWP, the size least significant byte first, the patch |
| Statuses.OtherType | app/src/detools/detools.c:405-415 | a patch whose first byte has type bits other than 0 ends with -3 and no write, whatever follows and if nothing does |
| Statuses.EmptyTarget | app/src/detools/detools.c:437-443 | a header that announces no target ends with 0, and with -11 if anything follows |
| Statuses.OtherWindow | app/src/detools/detools.c:125-164 | a stream that does not begin with 0x44 ends with -27 and no write |
| Statuses.FormatPatch | app/src/detools/detools.c:448-466 | a data format patch of positive size ends with -1 |
| Statuses.OversizeBlock | app/src/detools/detools.c:374-393 | a first block larger than the target, or of negative size, ends with -9 |
| Statuses.NegativeBlock | app/src/detools/detools.c:374-393 | a negative size passes the check exactly when that many bytes have been written, and stands for a block of 2^32 bytes less that |
| Statuses.LongField | app/src/detools/detools.c:316-372 | a fifth byte in the first size field ends with -25 |
| Statuses.SeekOutside | app/src/detools/detools.c:560-586 | a seek to the end of the source or beyond it ends with -10 |
| Statuses.ReadOutside | app/src/delta/delta.c:58-83 | reading the last byte of the source ends with -10 |
| Statuses.NoRoom | app/src/delta/delta.c:50-53 | writing the last byte of the slot ends with -10 |
| Statuses.UnreadBlock | app/src/detools/detools.c:511-534 | a diff block of at most 128 bytes of which the source has not all ends with -10, and none of it is written |
| Statuses.PreparedTrailing | app/src/detools/detools.c:622-624 | any bytes behind a prepared patch give -11, with its target written |
| Statuses.PreparedSurplus | app/src/detools/detools.c:210-225 | surplus output of its last byte gives -9, with its target written |

## Left out

- Output and input buffers passed to the callbacks are sequences, not memory with pointers; aliasing of caller buffers is not modelled.
- NULL arguments and the CASTING_ERROR and NO_FLASH_FOUND paths: references cannot be NULL here.
- The `default` branch of `heatshrink_decoder_poll` and of `apply_patch_process_once`: the states are a datatype, so an unknown one cannot be.
- Failures of the flash driver other than accesses beyond the device, and write alignment; a failing state_write or state_read callback.
- Overflow of `from_offset` as an int and of `patch_offset` and the flash cursors as 32-bit numbers: patches and flashes are far smaller.
- Applying.ApplyPatch.Restore: is stated for dumps of runs that have not failed; a failed run only repeats ALREADY_FAILED.
- Applying.HandOver: the state of the callbacks is not part of a dump; the target cursor and the write counter are taken over from the flash object, and the source starts anew.
- DeltaPatches.GapExact: says nothing of partitions too small for a patch that fills the slot, about 1/64 of its size.
- `app/src/main.c`, the buttons and LEDs; MCUboot and the reset are counters of requests.
- `heatshrink_decoder_alloc` and `_free`: not compiled.
- `patch_reader_dump`, which does nothing; the offset getters; the error strings.
- The host's encoder: patches are described by what they contain, and nothing is said of their size.
- `pad_patch.py` with headers longer than 8 bytes: the firmware only reads 8.
