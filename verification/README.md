# A verified model of the HTT data path

This project models the data path of the driver's HTT layer (`CORE/CLD_TXRX/HTT`) in Dafny and
proves what its parts keep over every call, every run and every interleaving.  `dafny verify
dfyconfig.toml` checks all of it.

| part | modules |
|---|---|
| Rx buffer store, full-reorder mode | `PaddrMap` (multimap and bucket array), `HttList`, `RxHash` (linked nodes), `HashEntries` (where the entries of a bucket are), `RxLookups`, `RxReorder`, `RxTarget` (the address ring shared with the target) |
| Rx buffer store, ring order | `RingIndex`, `RxRing`, and `RefillGuard` for the reference-count guard |
| Rx list construction | `Nbufs`, `RxInOrder`, `RxAmsdu`, `Restitch` |
| Tx credit | `TxCredit`, `TxCreditThreads` (interleavings) |
| Tx pools and queues | `TxDescPool`, `TxSched`, `TxSchedThreads` (interleavings), `HtcPkts` |
| Codecs | `TxqGroup`, `TxCompl`, `ListStr`, `SignExt` |
| Facts used by several of them | `Division`, `MinMax`, `Multisets` |

The C code changes lists, rings and counters in place, and so do the classes here: each method
follows one C function (a few long ones are split at their loop bodies) and is proved against
functions on sequences and maps.  Ghost parameters and ghost fields carry the abstract value.
Where a C function calls something outside this layer, its behaviour is a parameter: the
allocator, the DMA mapping and the heap (`Supply`, `allocOk`, `memory`), HTC's answers
(`Htc.refuses`), the bytes beyond a buffer's tail (`junk`), the word behind the page array
(`beyond`).

## What turned out differently from the comments and names in the code

* **Restitching without clones.**  On Linux `adf_nbuf_next_ext` and `adf_nbuf_next` are the same
  `skb->next` (`CORE/SERVICES/COMMON/adf/linux/adf_nbuf_pvt.h`, lines 1158 to 1201), so the loop that
  unlinks the MSDU list also cuts the fragment list that was built from it.  `Restitch.Restitch`
  says exactly when nothing is lost by that.
* **Descriptor pool.**  The exit `break` leaves only the inner loop, so the outer loop goes on
  when the last link falls on a page boundary.  `TxDescs.Attach` says exactly when the list is
  right, and what it is otherwise.
* **Credit.**  `htt_tx_credit_update` returns a negative minimum without taking it off the
  counters, and two of its callers pass it on.  After a top-up this happens, and repeats with
  every completion (`TakenBackEachTime`); `RunConservesIff` gives the exact condition.
* **In-order pop.**  `fill_cnt` drops even when a lookup finds nothing; the invariant is
  `fill_cnt + failed lookups = entries`.  When an address is not posted, 0 is returned with a null
  tail, and the good frames taken before it are not freed.  Every failed lookup also raises what
  later refills post; `RxTarget.MissesBorne` says how many the ring bears.
* **Group credits.**  The 8-bit offset makes the loop endless beyond 128 elements.
* **Completion fix-up.**  It does not need the IDs to differ from 0xffff, only the padding to be 0xffff.
* **Sign extension** is lost for a field that ends at bit 31.
* **Order of frames.**  The mutex of the retry queue covers one queue operation at a time, so with
  several threads frames can overtake each other; none is lost.  `TxSchedThreads` says exactly
  which steps keep the order.
* **Count of posted buffers.**  `fill_cnt` is a plain integer; `RefillGuard` says exactly when it
  stays right.
* **Top-up.**  It looks at the visible credit without what other handlers are about to add, so
  33 can be passed by that much (`TxCreditThreads`).
* **Download length.**  `htt_tx_sched` lowers it for one frame and keeps it for those behind.

## Model

| member | source | states |
|---|---|---|
| PaddrMap.XorIsBitwise | CORE/CLD_TXRX/HTT/htt_rx.c:3164 | the exclusive or inside RX_HASH_FUNCTION is the bitwise one, bit by bit |
| PaddrMap.HashBits | CORE/CLD_TXRX/HTT/htt_rx.c:3158-3164 | bit k of the bucket number is the exclusive or of bits k + 4 and k + 14 of the address, for each of the ten bits |
| PaddrMap.FifoRemoveFirst | CORE/CLD_TXRX/HTT/htt_rx.c:3297-3352 | removing the first match of an address in a bucket pops the front of that address's queue and leaves the queue of every other address, including those that collide with it, as it was |
| PaddrMap.QueueAfterInsert | CORE/CLD_TXRX/HTT/htt_rx.c:3244-3295 | an insert appends to the queue of its own address and changes no other queue |
| PaddrMap.QueueAfterRemove | CORE/CLD_TXRX/HTT/htt_rx.c:3297-3352 | a lookup pops the queue of its own address and changes no other queue |
| PaddrMap.CountAfterInsert | CORE/CLD_TXRX/HTT/htt_rx.c:3244-3295 | an insert adds one entry over all buckets |
| PaddrMap.CountAfterRemove | CORE/CLD_TXRX/HTT/htt_rx.c:3297-3352 | a lookup takes one entry away exactly when the address is posted |
| PaddrMap.AllBufsAfterInsert | CORE/CLD_TXRX/HTT/htt_rx.c:3244-3295 | an insert adds exactly its buffer to what is posted |
| PaddrMap.AllBufsAfterRemove | CORE/CLD_TXRX/HTT/htt_rx.c:3297-3352 | a lookup takes exactly the oldest buffer of the address out of what is posted, or nothing |
| PaddrMap.TableRefinesMultimap | CORE/CLD_TXRX/HTT/htt_rx.c:3244-3352 | over every run of inserts and lookups the bucket array gives the answers of a plain map from address to FIFO, and ends in the state that represents the map's |
| PaddrMap.FlattenBufs | CORE/CLD_TXRX/HTT/htt_rx.c:3421-3464 | walking the buckets in order meets every posted buffer as often as it is posted |
| HttList.ListAddTail | CORE/CLD_TXRX/HTT/htt_rx.c:3180-3187 | the node goes to the end of a well-formed circular doubly linked list, and a list that shares no node with it is not disturbed |
| HttList.ListRemove | CORE/CLD_TXRX/HTT/htt_rx.c:3190-3195 | the node goes out of the list, which stays well-formed and in order; other lists are not disturbed |
| RxHash.NewPool | CORE/CLD_TXRX/HTT/htt_rx.c:3357-3416 | a new bucket has ten pre-allocated entries, all on a well-formed free list |
| RxHash.Bucket.TakeEntry | CORE/CLD_TXRX/HTT/htt_rx.c:3243-3295 | the entry for an insert is the first one of the free pool, and the heap is left alone; from an empty pool it is a new one from the heap, or none when the heap refuses |
| RxHash.Bucket.Insert | CORE/CLD_TXRX/HTT/htt_rx.c:3243-3295 | on linked nodes: the (address, buffer) pair goes to the end of the bucket in the first free entry, in a heap entry only when none is free, or nothing changes; both lists stay well-formed and every pre-allocated entry stays in exactly one of them |
| RxHash.Bucket.ReleaseEntry | CORE/CLD_TXRX/HTT/htt_rx.c:3296-3352 | a pre-allocated entry goes back to the end of the free pool, one from the heap is freed, which needs it to be allocated |
| RxHash.Bucket.Lookup | CORE/CLD_TXRX/HTT/htt_rx.c:3296-3352 | on linked nodes: returns the buffer of the first entry with the address, and gives just that entry back to where it came from; nothing changes when there is none |
| RxHash.Bucket.Drain | CORE/CLD_TXRX/HTT/htt_rx.c:3434-3458 | hands over every posted buffer of the bucket in order and leaves no heap entry allocated |
| RxHash.HashTable.constructor | CORE/CLD_TXRX/HTT/htt_rx.c:3357-3416 | 1024 valid buckets that share no node, all empty; or a table that stays null when the bucket array cannot be had |
| RxHash.HashTable.Insert | CORE/CLD_TXRX/HTT/htt_rx.c:3243-3295 | the whole table takes the abstract insert, or nothing changes; it fails if and only if the bucket has no free entry and the heap refuses; the entries of every other bucket stay, and the heap is not used while the bucket has a free entry |
| RxHash.HashTable.Lookup | CORE/CLD_TXRX/HTT/htt_rx.c:3296-3352 | the whole table takes the abstract removal and the result is the oldest buffer with the address, or null; no other bucket is touched |
| RxHash.HashTable.Deinit | CORE/CLD_TXRX/HTT/htt_rx.c:3418-3464 | every posted buffer is freed once, in bucket order, and no heap entry of any bucket is left; nothing for a table that was never set up |
| HashEntries.EachInOneList | CORE/CLD_TXRX/HTT/htt_rx.c:3243-3352 | over every run of a bucket each of its ten entries is in exactly one of the two lists, once |
| HashEntries.HeapGrowsOnlyWhenFull | CORE/CLD_TXRX/HTT/htt_rx.c:3253-3277 | over every run of a bucket the heap is drawn on only in a step that finds all ten entries posted |
| HashEntries.HeapUsedIff | CORE/CLD_TXRX/HTT/htt_rx.c:3253-3277 | so heap entries are ever used if and only if more than ten buffers are ever posted in the bucket at once |
| RxLookups.QueueAfterRemoveAll | CORE/CLD_TXRX/HTT/htt_rx.c:2238-2346 | after any sequence of lookups each queue has lost from its front as many buffers as its address was asked for |
| RxLookups.TakenIsFifo | CORE/CLD_TXRX/HTT/htt_rx.c:2238-2346 | the j-th buffer of a message is the oldest one of its address that earlier entries of the message have not taken |
| RxLookups.AllFound | CORE/CLD_TXRX/HTT/htt_rx.c:2238-2346 | every lookup of a message succeeds if and only if no address occurs in it more often than it is posted |
| RxLookups.TakenConserves | CORE/CLD_TXRX/HTT/htt_rx.c:2238-2346 | what was posted is what is still posted plus what was taken |
| RxLookups.OnceEachTaken | CORE/CLD_TXRX/HTT/htt_rx.c:2238-2346 | with distinct buffers posted, those taken are distinct and none of them is still posted |
| RxInOrder.SelectSplits | CORE/CLD_TXRX/HTT/htt_rx.c:2286-2335 | frames kept and frames dropped for MIC errors are together the looked-up ones |
| RxInOrder.Fetch | CORE/CLD_TXRX/HTT/htt_rx.c:2238-2246 | one lookup of an indication: the next buffer of the message, or the indication is over |
| RxInOrder.SetBytes | CORE/CLD_TXRX/HTT/htt_rx.c:2253-2285 | the buffer loses the rx descriptor and is cut to the length of the message entry; the FW byte is stored |
| RxInOrder.Handle | CORE/CLD_TXRX/HTT/htt_rx.c:2251-2302 | one frame is finished; it is freed, once, and not linked, if and only if bit 2 (0x04) of its FW byte is set |
| RxInOrder.Follow | CORE/CLD_TXRX/HTT/htt_rx.c:2313-2351 | the next frame is linked behind the last one kept, or becomes the head when none is |
| RxInOrder.PopMsdus | CORE/CLD_TXRX/HTT/htt_rx.c:2194-2361 | the whole function, for every message with an MSDU and every store: head..tail links exactly the looked-up frames without MIC error in message order, the others are freed once, every one has left the table and the counters agree; when some address is not posted it stops there: 0, a null tail, the frames kept so far linked, and as head the first of them, or a frame already freed when there is none |
| RxInOrder.AmsduPop | CORE/CLD_TXRX/HTT/htt_rx.c:2194-2361 | the same, and for a message without any MSDU: one lookup with what follows the header, 1 with that buffer as head and the tail as it was, or 0 with both null |
| RxInOrder.NothingUpIff | CORE/CLD_TXRX/HTT/htt_rx.c:2303-2313 | 0 with head and tail null is returned if and only if every frame of the message has bit 2 of its FW byte set; else 1 with a null-terminated list |
| RxInOrder.MarkedIs | CORE/CLD_TXRX/HTT/htt_rx.c:2294-2310 | the frames marked are those with bit 2 of the FW byte set, or clear: all of them, each once, in message order |
| RxInOrder.FreedAre | CORE/CLD_TXRX/HTT/htt_rx.c:2294-2310 | the buffers freed by one indication are those of the looked-up frames with the bit set, in message order |
| RxInOrder.LinkedAre | CORE/CLD_TXRX/HTT/htt_rx.c:2286-2351 | the others are linked one behind the other from `head`, and when every address was posted `tail` is the last of them; what head, tail and the result are in all other cases |
| RxInOrder.BytesAre | CORE/CLD_TXRX/HTT/htt_rx.c:2253-2285 | each of them holds its FW byte and the bytes behind the rx descriptor up to the length of its message entry |
| Nbufs.PayloadIsMsdu | CORE/CLD_TXRX/HTT/htt_rx.c:2267-2281 | pull and trim leave the bytes behind the rx descriptor, cut to the reported length when it fits and untrimmed when it does not |
| RxReorder.PostAllConserves | CORE/CLD_TXRX/HTT/htt_rx.c:229-321 | a refill adds exactly the supplied buffers to what is posted |
| RxReorder.PostAllQueue | CORE/CLD_TXRX/HTT/htt_rx.c:229-321 | and each address gets its own buffers behind those it had, in the order supplied |
| RxReorder.RxStore.PostOne | CORE/CLD_TXRX/HTT/htt_rx.c:280-320 | one mapped buffer: table entry, ring slot and count together, or the buffer is freed and nothing changes |
| RxReorder.RxStore.FillN | CORE/CLD_TXRX/HTT/htt_rx.c:214-331 | whatever the allocator does, the buffers supplied before the first failure are posted in order, their addresses are in the ring slots from the write index on, the buffer of the failing iteration is freed, the write index moves by as many as were posted, and `fill_cnt` plus failed lookups stays the number of entries over all buckets |
| RxReorder.WrittenAt | CORE/CLD_TXRX/HTT/htt_rx.c:300-320 | each posted buffer has its own slot for its address, and no other slot is touched |
| RxReorder.RxStore.Replenish | CORE/CLD_TXRX/HTT/htt_rx.c:3061-3072 | the same up to the fill level, which is reached when nothing fails, unless failed lookups have driven the count so low that the request exceeds the ring: then it is refused, now and later |
| RxReorder.RxStore.PopByPaddr | CORE/CLD_TXRX/HTT/htt_rx.c:813-820 | the oldest buffer with the address leaves; the count drops even when there is none, and exactly that is recorded |
| RxReorder.RxStore.Detach | CORE/CLD_TXRX/HTT/htt_rx.c:350-368 | every posted buffer is freed exactly once and no heap entry stays allocated |
| RxTarget.OverwritesIff | CORE/CLD_TXRX/HTT/htt_rx.c:214-331 | a refill writes over an address the target has not copied if and only if the uncopied and the new ones together are more than the ring holds |
| RxTarget.NeverOverwritesIff | CORE/CLD_TXRX/HTT/htt_rx.c:214-331 | over every run of refills, copies and lookups: none is written over if and only if they fit at each refill |
| RxTarget.MissesBorne | CORE/CLD_TXRX/HTT/htt_rx.c:813-820 | each failed lookup makes the refill ask for one buffer too many: no run with at most `m` of them writes over an uncopied address if and only if level + m fits in the ring; without any, none does |
| RxTarget.ElemsIsUnreadIff | CORE/CLD_TXRX/HTT/htt_rx.c:341-347 | the masked difference of the write index and the index of the target counts the uncopied addresses if and only if they are fewer than the ring has slots |
| RxTarget.SharedRing.InOrderRingElems | CORE/CLD_TXRX/HTT/htt_rx.c:341-347 | returns that difference |
| RxTarget.SharedRing.Replenish | CORE/CLD_TXRX/HTT/htt_rx.c:3061-3072 | a refill is such a step, and when it fits leaves every uncopied address in its slot |
| RxTarget.SharedRing.Copy | CORE/CLD_TXRX/HTT/htt_types.h:273-286 | the target then copies the addresses in the order they were written |
| RxTarget.SharedRing.Pop | CORE/CLD_TXRX/HTT/htt_rx.c:813-820 | a lookup is such a step and touches no address |
| RingIndex.RingSize | CORE/CLD_TXRX/HTT/htt_rx.c:147-184 | the ring size is 128, 256, 512, 1024 or 2048 whatever the configured throughput |
| RingIndex.RingSizeIsLeast | CORE/CLD_TXRX/HTT/htt_rx.c:166-183 | the least of these with room for the frames of 20 ms, unless a limit is hit |
| RingIndex.FillLevel | CORE/CLD_TXRX/HTT/htt_rx.c:186-205 | the fill level is below the ring size, so a full ring never looks empty |
| RingIndex.FillLevelIs | CORE/CLD_TXRX/HTT/htt_rx.c:186-205 | for every throughput: the frames of 10 ms, or one less than the ring size when that is less |
| RingIndex.LevelIsUncutBelowMax | CORE/CLD_TXRX/HTT/htt_rx.c:147-205 | the level is cut to size - 1 if and only if the throughput is 1640 Mbps or more; in a smaller ring it is at most half of it |
| RingIndex.MaskIsRemainder | CORE/CLD_TXRX/HTT/htt_rx.c:320-346 | for every size a ring can have, masking with size - 1 is the remainder |
| RingIndex.Distance | CORE/CLD_TXRX/HTT/htt_rx.c:334-338 | the masked index difference is the number of posted buffers |
| RingIndex.RefillReusesHead | CORE/CLD_TXRX/HTT/htt_rx.c:2845-2852 | a refill between a pop and its descriptor step writes the head slot again if and only if the old and the new buffers together exceed one lap |
| RxRing.Ring.constructor | CORE/CLD_TXRX/HTT/htt_rx.c:3490-3580 | an empty ring of the configured size |
| RxRing.Ring.RingElems | CORE/CLD_TXRX/HTT/htt_rx.c:333-338 | the masked difference of the two indices is `fill_cnt` and the number of posted buffers |
| RxRing.Ring.PostAt | CORE/CLD_TXRX/HTT/htt_rx.c:300-320 | one buffer at the write index, with its address in the other ring |
| RxRing.Ring.FillN | CORE/CLD_TXRX/HTT/htt_rx.c:214-331 | the posted queue grows by exactly what was supplied before the first failure, slots and addresses agree, no posted slot is overwritten, and a buffer that cannot be mapped is freed |
| RxRing.PostedOrFreed | CORE/CLD_TXRX/HTT/htt_rx.c:229-321 | so every buffer the allocator hands out before the refill ends is either posted or freed |
| RxRing.Ring.Replenish | CORE/CLD_TXRX/HTT/htt_rx.c:3061-3072 | the same up to the fill level |
| RxRing.Ring.NetbufPop | CORE/CLD_TXRX/HTT/htt_rx.c:790-811 | returns the buffer posted longest ago, the others keep their order; on an empty ring, what the slot still holds, and the count goes below zero |
| RxRing.Ring.MpduDescListNext | CORE/CLD_TXRX/HTT/htt_rx.c:2845-2852 | returns the buffer in the descriptor slot and makes the descriptor index equal to the payload index |
| RxRing.Ring.Detach | CORE/CLD_TXRX/HTT/htt_rx.c:368-384 | frees exactly the posted buffers, oldest first |
| RxAmsdu.SplitIsPrefix | CORE/CLD_TXRX/HTT/htt_rx.c:1029-1240 | the MSDUs of an A-MSDU, put together, are the front of the ring |
| RxAmsdu.SplitPieces | CORE/CLD_TXRX/HTT/htt_rx.c:1178-1240 | each MSDU has 1 + chained buffers and only the last one is marked last |
| RxAmsdu.SplitIsOnly | CORE/CLD_TXRX/HTT/htt_rx.c:1178-1240 | there is only one way to cut the front of the ring like that |
| RxAmsdu.StartMsdu | CORE/CLD_TXRX/HTT/htt_rx.c:1038-1196 | the first buffer of an MSDU: its bytes; the FW descriptor byte at the index, the first one of a fragment indication, or 0 once they run out; the index then moves on |
| RxAmsdu.SetChunk | CORE/CLD_TXRX/HTT/htt_rx.c:1201-1220 | a chained buffer keeps all its bytes except the last, which is trimmed to what is left of the length |
| RxAmsdu.PopMsdu | CORE/CLD_TXRX/HTT/htt_rx.c:1187-1221 | one MSDU: pops and links exactly its chained buffers in ring order |
| RxAmsdu.AmsduPop | CORE/CLD_TXRX/HTT/htt_rx.c:1001-1251 | removes exactly the sum of 1 + chained buffers up to the last-MSDU mark, links them null-terminated in ring order, and the i-th MSDU has FW byte number b0 + i, or number 0 in a fragment indication, or 0 once they run out |
| RxAmsdu.PopThenDesc | CORE/CLD_TXRX/HTT/htt_rx.c:2845-2852 | a following descriptor step without refill returns the head that was popped and realigns the two read indices |
| RxAmsdu.FwBytesAre | CORE/CLD_TXRX/HTT/htt_rx.c:1131-1170 | which FW byte each MSDU has after a pop |
| RxAmsdu.IndexIs | CORE/CLD_TXRX/HTT/htt_rx.c:1131-1170 | the byte index stands behind the last byte used, and chaining is reported if and only if some MSDU takes more than one buffer |
| RxAmsdu.BytesAre | CORE/CLD_TXRX/HTT/htt_rx.c:1187-1220 | what each buffer of an A-MSDU holds after a pop: a first one the bytes behind the rx descriptor, cut to the reported length if it stands alone without length error and that fits; a chained one all of its bytes, the last one cut to what is left of the length when that fits |
| RxAmsdu.HeadDataIs | CORE/CLD_TXRX/HTT/htt_rx.c:1187-1196 | the same for the first buffer by itself, for every descriptor |
| RxAmsdu.ChunkDataIs | CORE/CLD_TXRX/HTT/htt_rx.c:1207-1220 | the same for a chained buffer |
| RefillGuard.StepKeepsInv | CORE/CLD_TXRX/HTT/htt_rx.c:3061-3072 | every atomic step of any thread keeps the guard invariant |
| RefillGuard.GuardTheorem | CORE/CLD_TXRX/HTT/htt_rx.c:3061-3072 | for any number of threads and every interleaving, whatever becomes of `fill_cnt`: `refill_ref_cnt` is one less the threads between decrement and increment, at most one thread is in the refill, and when all are out the next one gets in |
| RefillGuard.CountIff | CORE/CLD_TXRX/HTT/htt_rx.c:300-320 | with each count up or down split into load and store: `fill_cnt` agrees with the ring throughout, up to stores still to come, if and only if no store counts from a loaded value that is no longer the current one; then neither it nor the ring exceeds the level |
| RefillGuard.TornOvershoots | CORE/CLD_TXRX/HTT/htt_rx.c:3061-3072 | a run from the start, for every level, in which a post and a pop overlap and the refill after it fills the ring to one more than the level |
| Restitch.SubframesAligned | CORE/CLD_TXRX/HTT/htt_rx.c:2621-2663 | every subframe starts at a multiple of four from the first (section 9.3.2.2 of IEEE Std 802.11-2016) |
| Restitch.NextBoundary | CORE/CLD_TXRX/HTT/htt_rx.c:2621-2663 | that is the next such boundary behind the subframe before, and the last subframe ends the frame |
| Restitch.SubframeAt | CORE/CLD_TXRX/HTT/htt_rx.c:2647-2657 | at its offset each subframe reads back as its header and payload |
| Restitch.SubsAre | CORE/CLD_TXRX/HTT/htt_rx.c:2542-2618 | which bytes of the saved statuses the headers are, by the bits of the first status: its 802.11 header has 24 bytes, 6 more with a fourth address and 2 more with QoS control, and the MSDU header follows at the next multiple of four; in the other statuses it comes first; it has 22 bytes in an A-MSDU and else 8 |
| Restitch.FragIs | CORE/CLD_TXRX/HTT/htt_rx.c:2619-2672 | each fragment holds a payload and behind it the filler and header of the next one |
| Restitch.Stitch | CORE/CLD_TXRX/HTT/htt_rx.c:2619-2672 | the loop: MPDU buffer and fragments hold header and payload of every MSDU in order, and the running length, which starts as an unsigned negative, ends as the length of the fragments |
| Restitch.Restitch | CORE/CLD_TXRX/HTT/htt_rx.c:2542-2701 | the decap branch: the 802.11 header followed by every padded subframe in order, in both modes, with the very bytes of the statuses; with clones the fragment list has them all and the MSDU list is left as it was; without, the list from the first fragment is complete if and only if there is one MSDU, or a second and last one that is just its decap header |
| Restitch.FirstIsAllIff | CORE/CLD_TXRX/HTT/htt_rx.c:2690-2699 | when the first fragment alone holds all the stitched bytes |
| Restitch.Unlink | CORE/CLD_TXRX/HTT/htt_rx.c:2692-2699 | the final loop clears every link of the MSDU list, which are the links of the fragment list |
| TxCredit.TxCreditState.constructor | CORE/CLD_TXRX/HTT/htt_tx.c:181-183 | the counters start at 0 and 33 |
| TxCredit.TxCreditState.CreditUpdate | CORE/CLD_TXRX/HTT/htt_tx.c:944-954 | returns the smaller counter and takes it off both when it is positive; a negative one is returned too, and leaves both as they are |
| TxCredit.TxCreditState.SendComplete | CORE/CLD_TXRX/HTT/htt_h2t.c:105-114 | one more on the bus counter, and what that releases; a negative minimum takes nothing away here |
| TxCredit.TxCreditState.CreditCompletion | CORE/CLD_TXRX/TXRX/ol_tx_send.c:541-544 | only a positive amount reaches the visible credit |
| TxCredit.TxCreditState.MgmtCompletion | CORE/CLD_TXRX/HTT/htt_t2h.c:458-476 | one more from the target, and the minimum, of either sign, goes to the visible credit; with default completions just one more visible; in low latency nothing |
| TxCredit.TxCreditState.TxCompletion | CORE/CLD_TXRX/HTT/htt_t2h.c:895-933 | the same for a number of frames, unless that takes the target counter past 204800 or is a failure note for frames freed at download |
| TxCredit.TxCreditState.CreditUpdateInd | CORE/CLD_TXRX/HTT/htt_t2h.c:531-605 | both top-up branches come to one rule: after settling, lend up to 33 visible credits out of what the target granted; in the other modes a positive update is added; past the limit nothing happens |
| TxCredit.EveryRunAccounted | CORE/CLD_TXRX/HTT/htt_t2h.c:458-605 | after every run: target counter = granted - gained, bus counter = 33 + sends - gained, visible credit = initial + gained - lost - spent |
| TxCredit.DifferenceTheorem | CORE/CLD_TXRX/HTT/htt_tx.c:944-954 | the difference of the counters is granted - (33 + sends) after every run, top-ups and negative grants included |
| TxCredit.ReleasedIsMinOfTotals | CORE/CLD_TXRX/HTT/htt_tx.c:944-954 | in a run without credit updates the credit released is min(granted, 33 + sends) after every step, and none is taken back |
| TxCredit.OrderIndependent | CORE/CLD_TXRX/HTT/htt_t2h.c:458-476 | two orders of the same completions leave the same three counters |
| TxCredit.TopUpBound | CORE/CLD_TXRX/HTT/htt_t2h.c:560-592 | a credit update that is taken leaves min(33, V + target) when it lends and otherwise just the settled state; after it 33 credits are visible or the target counter is used up |
| TxCredit.StepConservesIff | CORE/CLD_TXRX/HTT/htt_tx.c:944-954 | a step keeps visible + target + spent - granted if and only if it is not a completion that finds a negative minimum; then exactly that minimum is lost |
| TxCredit.RunConservesIff | CORE/CLD_TXRX/HTT/htt_tx.c:944-954 | a run conserves credit if and only if it has no such step |
| TxCredit.TakenBackEachTime | CORE/CLD_TXRX/HTT/htt_t2h.c:458-476 | once the bus counter is below zero, every further management completion takes the same amount away again, without bound |
| TxCredit.BusCounterFallsBelowZero | CORE/CLD_TXRX/HTT/htt_t2h.c:560-575 | a run that gets there: a large grant, spent, and one more update |
| TxCredit.OneCounterRun | CORE/CLD_TXRX/HTT/htt_t2h.c:458-605 | with default completions, and in low latency: over every run the two counters stay at 0 and 33, and the visible credit is the initial one plus what the completions (high latency only) and the positive updates within the limit bring, minus each amount that was there when the scheduler asked for it |
| TxCreditThreads.EveryRunAccounted | CORE/CLD_TXRX/HTT/htt_t2h.c:458-605 | any number of handlers at once, step by step inside and outside the mutex: the difference of the counters is granted - (33 + sends), and visible credit, credit in flight, credit spent and the target counter make up what was granted, less what completions lost |
| TxCreditThreads.ReleasedIsMinOfTotals | CORE/CLD_TXRX/HTT/htt_t2h.c:458-476 | without credit updates, visible credit and credit in flight make up initial - spent + min(granted, 33 + sends) after every step of every interleaving |
| TxCreditThreads.LendReaches | CORE/CLD_TXRX/HTT/htt_t2h.c:560-592 | a top-up brings visible credit and its own release to exactly min(33, V + target), so with what others have in flight the total passes 33 by exactly that |
| TxCreditThreads.PassesLimit | CORE/CLD_TXRX/HTT/htt_t2h.c:560-605 | visible credit is 33 plus the other release once that has landed |
| TxCreditThreads.LendsLessThanNothingIff | CORE/CLD_TXRX/HTT/htt_t2h.c:562-574 | the top-up is negative if and only if enough has landed since its test |
| TxCreditThreads.PassesLimitFromStart | CORE/CLD_TXRX/HTT/htt_t2h.c:458-605 | runs from the start that take the visible credit to 33 plus any number of completions up to 33 |
| TxCreditThreads.LendsLessThanNothingFromStart | CORE/CLD_TXRX/HTT/htt_t2h.c:458-605 | runs from the start in which the top-up takes back all the credit there was before |
| TxCreditThreads.CompleteAlone | CORE/CLD_TXRX/HTT/htt_t2h.c:458-476 | a completion that no other step comes between does what the handler does |
| TxCreditThreads.SendAlone | CORE/CLD_TXRX/HTT/htt_h2t.c:105-114 | so does a message taken by the bus |
| TxCreditThreads.UpdateAlone | CORE/CLD_TXRX/HTT/htt_t2h.c:531-605 | so does a credit update, with its top-up when one is due |
| TxDescPool.PoolIs | CORE/CLD_TXRX/HTT/htt_tx.c:151-178 | the pool is all slots of all pages before the last descriptor |
| TxDescPool.TxDescs.Attach | CORE/CLD_TXRX/HTT/htt_tx.c:118-194 | for every argument, of which `pool_elems` keeps 16 bits, and every page size: the freelist visits each of the `pool_elems` descriptors once, in page order, if and only if (pool_elems - 1) % k != 0, or the word behind the page array happens to be the address of the last descriptor; in every other case it fails, or the list it makes is given |
| TxDescPool.OverrunByOnePage | CORE/CLD_TXRX/HTT/htt_tx.c:155-178 | when that word points elsewhere, the list is k descriptors too long |
| TxDescPool.OverrunIsPoolIff | CORE/CLD_TXRX/HTT/htt_tx.c:155-178 | the list made in the other sizes is the pool only for that address |
| TxDescPool.TxDescs.Alloc | CORE/CLD_TXRX/HTT/htt_tx.c:349-365 | takes the head of the freelist; null when it is empty |
| TxDescPool.TxDescs.Free | CORE/CLD_TXRX/HTT/htt_tx.c:403-412 | puts the descriptor at the head of the freelist; if it is on the list already, the list becomes a circle |
| TxDescPool.RunPartitionIff | CORE/CLD_TXRX/HTT/htt_tx.c:349-412 | over every run: freelist and outstanding descriptors partition the pool and alloc_cnt + |freelist| = pool_elems throughout, if and only if each free is of a descriptor that is out at that moment |
| TxDescPool.AttachedIsPartition | CORE/CLD_TXRX/HTT/htt_tx.c:118-194 | what attach leaves is such a partition |
| TxSched.TxQueue.Add | CORE/SERVICES/COMMON/adf/linux/adf_nbuf_pvt.h:834-846 | appends to the linked queue |
| TxSched.TxQueue.InsertHead | CORE/SERVICES/COMMON/adf/linux/adf_nbuf_pvt.h:857-868 | puts in front of the linked queue |
| TxSched.TxQueue.Remove | CORE/SERVICES/COMMON/adf/linux/adf_nbuf_pvt.h:878-895 | takes the front of the linked queue, unlinked, or null |
| TxSched.HttTx.Sched | CORE/CLD_TXRX/HTT/htt_tx.c:463-496 | hands over the longest prefix of the queue that HTC takes, keeps the rest in order, and states the download length of every frame |
| TxSched.DrainIs | CORE/CLD_TXRX/HTT/htt_tx.c:463-496 | that prefix is taken attempt by attempt, and a refused attempt is the last one made |
| TxSched.BatchIs | CORE/CLD_TXRX/HTT/htt_tx.c:467-485 | each frame goes out with the least length seen so far in the call |
| TxSched.HttTx.SendStd | CORE/CLD_TXRX/HTT/htt_tx.c:499-542 | fast path and queued path both come to queueing the frame and draining, download lengths included |
| TxSched.OrderIsKept | CORE/CLD_TXRX/HTT/htt_tx.c:463-542 | over every run and every accept/reject behaviour, frames sent followed by frames waiting are the frames submitted, in order |
| TxSched.WaitingMeansRefused | CORE/CLD_TXRX/HTT/htt_tx.c:486-494 | frames wait only when the last attempt was refused |
| TxSched.OwnLengthIff | CORE/CLD_TXRX/HTT/htt_tx.c:467-485 | every frame of one call keeps its own download length if and only if these lengths never grow along the queue |
| TxSchedThreads.StepConserves | CORE/CLD_TXRX/HTT/htt_tx.c:463-542 | each step of any thread keeps the frames sent, waiting and in hand, together |
| TxSchedThreads.NothingLost | CORE/CLD_TXRX/HTT/htt_tx.c:463-542 | for any number of threads and every interleaving, the frames sent, waiting and in hand are the frames submitted: none is lost, none goes twice |
| TxSchedThreads.StepInOrderIff | CORE/CLD_TXRX/HTT/htt_tx.c:463-542 | from a state in order, with distinct frames, the steps that keep it are exactly the quiet ones: seeing frames waiting with no other frame still to be queued, seeing none with no frame in any hand, queueing with no fresh frame on offer, taking one with none on offer |
| TxSchedThreads.SafeIff | CORE/CLD_TXRX/HTT/htt_tx.c:463-542 | with distinct frames, whatever the threads then do, offering one frame at a time, sends them in the order of submission if and only if the state is in order |
| TxSchedThreads.OrderIff | CORE/CLD_TXRX/HTT/htt_tx.c:463-542 | for every run of any number of threads, reading the queue length and acting on it being two steps: each step is quiet if and only if after each step, however the threads go on offering one at a time, the frames go out in the order of submission |
| TxSchedThreads.OneThreadInOrder | CORE/CLD_TXRX/HTT/htt_tx.c:463-542 | a thread on its own always keeps the order |
| TxSchedThreads.OneAlone | CORE/CLD_TXRX/HTT/htt_tx.c:463-542 | a thread that nobody comes between sends its frame or queues it behind the others, and a frame it offers from the queue goes out or stays in front |
| TxSchedThreads.SecondOvertakesFirst | CORE/CLD_TXRX/HTT/htt_tx.c:470-495 | with two threads in htt_tx_sched, from any queue of two or more, the second frame can go before the first |
| TxSchedThreads.QuietThenTwoThreads | CORE/CLD_TXRX/HTT/htt_tx.c:470-495 | so offering one at a time is needed: after a run of quiet steps, two threads can still send the second frame first |
| HtcPkts.PktLists.MiscTrim | CORE/CLD_TXRX/HTT/htt.c:121-147 | keeps the first `level` packets and frees the others with their buffers, in order; below level 1 everything is freed and the head is left as it was |
| HtcPkts.PktLists.MiscAdd | CORE/CLD_TXRX/HTT/htt.c:149-162 | the new packet goes in front and the list is trimmed to six |
| HtcPkts.PktLists.MiscPoolFree | CORE/CLD_TXRX/HTT/htt.c:164-180 | frees every packet and its buffer once |
| HtcPkts.PktLists.Alloc | CORE/CLD_TXRX/HTT/htt.c:78-94 | the first spare packet, or a new one when there is none, or null when that cannot be had |
| HtcPkts.PktLists.Free | CORE/CLD_TXRX/HTT/htt.c:96-105 | the packet becomes the first spare one |
| HtcPkts.PktLists.PoolFree | CORE/CLD_TXRX/HTT/htt.c:107-118 | frees every spare packet once |
| HtcPkts.NewestSixAreKept | CORE/CLD_TXRX/HTT/htt.c:149-162 | after any run of adds the list is the newest min(6, n) packets, newest first, and the older ones have been freed in the order they came |
| HtcPkts.EachFreedOnce | CORE/CLD_TXRX/HTT/htt.c:164-180 | freeing the pool after any run has freed every packet exactly once |
| TxqGroup.FirstFields | CORE/CLD_TXRX/HTT/htt.h:6175-6229 | the SET macros on a zeroed word, read back by the GET macros, for all checked values |
| TxqGroup.SecondFields | CORE/CLD_TXRX/HTT/htt.h:6186-6246 | the same for the two masks |
| TxqGroup.GroupCreditProcess | CORE/CLD_TXRX/HTT/htt_tx.c:957-988 | a chain of up to 128 elements is passed on element by element, and the loop ends |
| TxqGroup.ParseIs | CORE/CLD_TXRX/HTT/htt_tx.c:966-982 | what each element says, by the bits of its two words |
| TxqGroup.RoundTrip | CORE/CLD_TXRX/HTT/htt_tx.c:957-988 | whatever list of elements is encoded is what is decoded: id, signed credit, absolute flag and both masks, in order |
| TxqGroup.EndsIff | CORE/CLD_TXRX/HTT/htt_tx.c:983-985 | because the offset has 8 bits, the loop ends if and only if one of the first 128 elements has no extension bit |
| TxqGroup.TooMany | CORE/CLD_TXRX/HTT/htt_tx.c:983-985 | an encoded list of more than 128 elements never ends |
| TxCompl.FixUp | CORE/CLD_TXRX/HTT/htt_t2h.c:875-889 | an odd number of IDs and a word behind them other than 0xffff: that word replaces the last ID; else nothing changes |
| TxCompl.DescIds | CORE/CLD_TXRX/HTT/htt_t2h.c:1061-1082 | the IDs read are the first `num` values |
| TxCompl.PairSwappedAt | CORE/CLD_TXRX/HTT/htt_t2h.c:1061-1082 | where each ID is when the words are swapped |
| TxCompl.FixUpIff | CORE/CLD_TXRX/HTT/htt_t2h.c:875-889 | the IDs read are a permutation of the IDs sent if and only if their number is even, or the padding is 0xffff, or it equals the last ID (words not swapped), or the last ID is not 0xffff (words swapped) |
| TxCompl.InvalidPadIsEnough | CORE/CLD_TXRX/HTT/htt_t2h.c:875-889 | with 0xffff as padding it works for all IDs, swapped or not; none of them need differ from 0xffff |
| TxCompl.SwapTwice | CORE/CLD_TXRX/HTT/htt_t2h.c:1061-1082 | swapping the pairs twice is no swap |
| ListStr.MakeListStr | CORE/CLD_TXRX/HTT/htt_fw_stats.c:573-635 | the buffer holds the comma-joined decimals of the longest prefix that has no zero, is within max_elems, and whose text with trailing commas is shorter than the space; nothing is written behind the space, except the terminator when there is none |
| ListStr.LongestIsUnique | CORE/CLD_TXRX/HTT/htt_fw_stats.c:581-597 | there is exactly one such prefix and no longer one qualifies |
| ListStr.SplitGivesBack | CORE/CLD_TXRX/HTT/htt_fw_stats.c:590-602 | splitting at the commas and reading the decimals gives the numbers back |
| ListStr.ValueOfDecimal | CORE/CLD_TXRX/HTT/htt_fw_stats.c:589 | a printed number reads back as itself |
| ListStr.Decimal | CORE/CLD_TXRX/HTT/htt_fw_stats.c:589 | only digits, the last one the remainder by ten, one digit below ten, and no leading zero |
| ListStr.Read8UndoesUpload | CORE/CLD_TXRX/HTT/htt_fw_stats.c:550-571 | on a big-endian host the byte reader gets byte p of what the target stored |
| ListStr.Read16UndoesUpload | CORE/CLD_TXRX/HTT/htt_fw_stats.c:533-548 | and the halfword reader gets the little-endian halfword |
| SignExt.GetIsSignExtended | CORE/CLD_TXRX/HTT/htt.h:153-166 | for every field that ends below bit 31, or is the whole word, the macro chain computes the two's-complement value |
| SignExt.GetBits | CORE/CLD_TXRX/HTT/htt.h:153-166 | bit by bit: the bits of the field, and above them its top bit |
| SignExt.SignBitLostIff | CORE/CLD_TXRX/HTT/htt.h:153-166 | a field from bit s > 0 up to bit 31 is never extended, so the value is right if and only if the sign bit is clear |
| SignExt.PwrRoundTripIff | CORE/CLD_TXRX/HTT/htt.h:1385-1393 | SET then GET of the power field is the identity if and only if the value is in -128..127 and covers the bits that were set before; all other bits stay |

## Left out

- RxInOrder.AmsduPop: the offload form of the indication takes another path, which is not modelled. The assertions of the source that an address is found are not modelled as stops: the branch behind them is; nor is that of debug builds that there is an MSDU.
- RxHash.HashTable.constructor: a single bucket that cannot be had, which the source does not notice before it writes to it, is not covered.
- RxAmsdu.AmsduPop: requires the whole A-MSDU to be in the ring, as the source's assertion on each pop does.
- RxReorder.RxStore.FillN: the allocator is taken never to supply a buffer that is still posted, nor one twice (also in RxRing.Ring.FillN).
- RxTarget.SharedRing.Pop: the target is taken to indicate a buffer only after it has copied its address, and each copy once.
- Restitch.Restitch: for allocations and tail extensions that succeed and MSDUs of at least 14 bytes; the failure path and the TSF copy are not modelled.
- HtcPkts.PktLists.MiscAdd: on an empty list the source keeps the packet's first word, which is also `pdev_ctxt`, as its link; the model requires it to be null, as every caller leaves it.
- TxqGroup.GroupCreditProcess: only chains on which the loop ends; EndsIff says which those are.
- TxCompl.FixUp: the payload is taken to be whole 32-bit words, which the length check of the message handler does not demand for an odd number of IDs.
- TxDescPool.TxDescs.Attach: the high-latency variant of `htt_tx_attach`; the low-latency one differs in the type of the page table and in what it tests before it goes to the next page.
- ListStr.MakeListStr: one method for the 8-bit and the 16-bit printer, which differ in the reader only.
- ListStr.SnPrint: a negative space, which the C call takes for a very large one, is not covered.
- SignExt.GetIsSignExtended: arithmetic on 32-bit unsigned words; for a field that ends at bit 30 the C constant overflows a signed `int`.
- TxCredit.EveryRunAccounted: counters are unbounded integers; wrap-around of the source's 32-bit atomics is not modelled.
- The RAW branch of the restitch, radiotap headers and PHY-specific status fields.
- `DEBUG_DMA_DONE` polling and `HTT_RX_RESTORE`, checksum results, packet logging.
- The sizes of the rx descriptor structs: `descSize` is a parameter. Nbuf head and tail room is not bounded.
- DMA mapping, cache maintenance, timers, locks around single calls.
- The order of bytes inside the FW descriptor words on a big-endian host in the rx path.
- Host-to-target message construction, `htt_attach` wiring, IPA offload, statistics printing other than the lists.
- The scheduler and queues above HTT: they appear as the `Spend` events of the credit model.
