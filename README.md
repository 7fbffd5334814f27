# Byte ring buffer

A model of the byte ring buffer of `src/ringbuffer.c`. The buffer's state is
the `ringbuffer_t` record:

- caller-owned storage;
- `ring_mask`, which is capacity - 1;
- `tail_index`, the next slot to read;
- `head_index`, the next slot to write.

A put never refuses: when the buffer is full it gives up its oldest byte and
reports `CAT_ERROR`. Full and empty are computed from the two indices alone,
so one slot is always sacrificed and at most capacity - 1 bytes are live.

The project has four modules:

- `Mask` (`mask.dfy`) works on the source's 32-bit unsigned words. It covers
  the `IS_POWER_OF_TWO` macro, the masked index step, and the facts that let
  the rest of the model read `& ring_mask` as `% capacity`.
- `RingModel` (`ring_model.dfy`) is the value-level model. A `Ring` datatype
  holds the four fields, and each operation is a function on it. `Walk`, the
  traversal of `ringbuffer_print_all`, is the abstraction function from a
  ring to its live bytes, oldest first. A bounded FIFO (`Last`, `FifoPut`,
  `FifoPutAll`) is the reference each operation is proved to refine.
- `RingBuffers` (`ring_buffer.dfy`) holds the class `RingBuffer`. Its methods
  update the indices and the storage array in place, as the C functions do.
  The postconditions of `Init`, `Clear`, `Put`, `Get` and `PutMore` tie the
  new state to the matching `RingModel` function (`PutAll` for `PutMore`). They also state the
  new contents, which for `Put` and `PutMore` are the bounded FIFO's.
  `GetMore` and `GetMoreCorrected` have no `RingModel` state function. Their
  postconditions tie the new contents to the old ones directly: for the `n`
  bytes removed, `out[..n]` is `old(Contents())[..n]` and the new contents are
  `old(Contents())[n..]`.
- `Demo` (`demo.dfy`) replays the driver `src/main.c` on a 16-byte buffer. It
  states as postconditions the statuses and bytes the driver would observe.

`CAT_EOK` is 0 and `CAT_ERROR` is -1. `cat_error.h` is not part of this model.
`ringbuffer_put_more` relies on `CAT_EOK` being 0 and `CAT_ERROR` being nonzero.
Without wrap-around that would be enough. The sum is an int32, though, and after
k overwrites it is 0 whenever k times `CAT_ERROR` is a multiple of 2^32. For an
odd `CAT_ERROR`, such as -1, that needs 2^32 overwrites, more than any batch
modelled here (`StatusSumZero`). For an even one it comes sooner: 2^31
overwrites for -2.

## Model

| member | source | states |
|---|---|---|
| Mask.IsPowerOfTwoMacro | src/ringbuffer.c:25-26 | The macro as written holds exactly for 0 and the 32 powers of two that fit in 32 bits. |
| Mask.MaskedAdvance | src/ringbuffer.c:28-31 | `(i + 1) & ring_mask` never exceeds `ring_mask`, and masking it again changes nothing. |
| Mask.ValidCapacity | src/ringbuffer.c:64-66 | The capacity check `ringbuffer_init` evidently intends holds exactly for the 32 powers of two that fit in 32 bits. It rejects the 0 that the macro lets through. |
| Mask.MacroAcceptsZero | src/ringbuffer.c:25-26 | As written, `IS_POWER_OF_TWO(0)` holds. The mask is then 0xFFFFFFFF and one masked step from slot 0 goes to slot 1. The corrected capacity check rejects 0. |
| Mask.PowersOfTwoAreValid | src/ringbuffer.c:25-26 | Every 32-bit power of two passes the capacity check. |
| Mask.ValidCapacityAtMostHalf | src/ringbuffer.c:66-69 | A valid capacity is at most 2^31, so `head + capacity - tail` does not wrap for indices below the capacity. |
| Mask.MaskKeepsSmall | src/ringbuffer.c:28-31 | For a valid capacity, masking leaves an index below the capacity unchanged. |
| Mask.AdvanceWraps | src/ringbuffer.c:28-31 | For a valid capacity, `(i + 1) & ring_mask` stays below the capacity. It is `i + 1`, except from the last slot, where it is 0. |
| Mask.MaskIgnoresCap | src/ringbuffer.c:43-45 | Two words that differ by one capacity mask to the same value. This is why the wrapped `(head - tail) & ring_mask` is the live count modulo the capacity. |
| RingModel.Advance | src/ringbuffer.c:28-31 | One index step stays in `[0, capacity)`. It is `i + 1`, wrapping to 0 from the last slot. |
| RingModel.AdvanceInjective | src/ringbuffer.c:28-31 | Two distinct slots never step onto the same slot. |
| RingModel.Count | src/ringbuffer.c:43-45 | `(head - tail)` modulo the capacity is at most `ring_mask`. It is `head - tail` when tail <= head, and `head + capacity - tail` otherwise. |
| RingModel.CountStep | src/ringbuffer.c:28-31 | Moving the tail when it is not at head takes one from the count. |
| RingModel.Full | src/ringbuffer.c:33-49 | The full test on the masked count holds exactly when one more step of head would land on tail. |
| RingModel.Empty | src/ringbuffer.c:51-58 | `head == tail` holds exactly when the count is 0. |
| RingModel.FullAndEmpty | src/ringbuffer.c:33-58 | A state is both full and empty exactly when the capacity is 1. |
| RingModel.WalkLength | src/ringbuffer.c:173-180 | The traversal from slot `i` to head visits exactly `Count(i, head)` slots. |
| RingModel.WalkAt | src/ringbuffer.c:173-180 | The k-th byte visited is storage slot `(i + k) mod capacity`. |
| RingModel.WalkAppend | src/ringbuffer.c:99-101 | Writing at head and moving head appends the byte to the traversal. This holds when head does not step onto the traversal's start. |
| RingModel.ContentsAt | src/ringbuffer.c:173-180 | Live byte k is storage slot `(tail + k) mod capacity`. |
| RingModel.EmptyIffNoContents | src/ringbuffer.c:51-58 | `head == tail` holds exactly when no byte is live. |
| RingModel.FullIffAtBound | src/ringbuffer.c:33-49 | At most `ring_mask` bytes are ever live. `ringbuffer_is_full` holds exactly when `ring_mask` bytes are live. |
| RingModel.Init | src/ringbuffer.c:60-72 | Init binds the storage, sets `ring_mask` to capacity - 1 and leaves the contents empty. |
| RingModel.Clear | src/ringbuffer.c:74-79 | Clear keeps the storage and `ring_mask` and leaves the contents empty. |
| RingModel.ClearIdempotent | src/ringbuffer.c:74-79 | Clearing twice is clearing once. A get after a clear fails. |
| RingModel.Put | src/ringbuffer.c:81-105 | A put keeps the ring valid, with the same storage length and `ring_mask`. |
| RingModel.PutWhenFull | src/ringbuffer.c:85-101 | A put into a full ring of capacity above 1 drops the oldest byte and appends the new one. |
| RingModel.PutWhenNotFull | src/ringbuffer.c:94-101 | A put into a ring that is not full appends the byte. |
| RingModel.PutWhenSingleSlot | src/ringbuffer.c:81-105 | With capacity 1 the ring is always empty, before and after a put. |
| RingModel.PutRefines | src/ringbuffer.c:81-105 | A put is the bounded FIFO's put. The status is `CAT_ERROR` exactly when `ring_mask` bytes were live, and `CAT_EOK` otherwise. |
| RingModel.Get | src/ringbuffer.c:108-123 | A get keeps the ring valid, with the storage and `ring_mask` untouched. |
| RingModel.GetRefines | src/ringbuffer.c:108-123 | A get fails exactly on an empty ring, and then the contents stay empty. Otherwise the byte at tail is the oldest live byte, and the get drops it. |
| RingModel.PutAll | src/ringbuffer.c:125-134 | The puts of a batch keep the ring valid, with the same storage length and `ring_mask`. |
| RingModel.PutAllRefines | src/ringbuffer.c:125-134 | A batch of puts is the bounded FIFO's puts in order. The number of overwrites is how far the old contents plus the batch exceed `ring_mask`. |
| RingModel.PutAllSnoc | src/ringbuffer.c:130-133 | A batch plus one byte is the batch followed by one more put. The overwrite count grows by that put's overwrite. |
| RingModel.FifoPutAllLast | src/ringbuffer.c:125-134 | Starting from at most `bound` bytes, the bounded FIFO keeps exactly the last `bound` bytes of the old contents followed by the batch. |
| RingModel.LastAppend | src/ringbuffer.c:85-101 | Truncating to the last `n` bytes before appending one byte changes nothing once the result is truncated again. |
| RingModel.FifoFromEmpty | src/ringbuffer.c:125-134 | From an empty FIFO, a batch leaves its last `bound` bytes. |
| RingModel.FifoOrder | src/ringbuffer.c:125-134 | Up to `ring_mask` puts into an empty ring leave exactly those bytes in order, with no overwrite. |
| RingModel.OverwriteOldest | src/ringbuffer.c:85-101 | More than `ring_mask` puts into an empty ring keep only the last `ring_mask` bytes. Every put past the `ring_mask`-th one overwrote. |
| RingModel.Int32 | src/ringbuffer.c:127-132 | The `cat_int32_t` sum is reduced to the int32 range, congruent modulo 2^32 to the exact sum. |
| RingModel.StatusSumStep | src/ringbuffer.c:132 | If the int32 sum of statuses after k overwrites is `Int32(-k)`, adding one more put's status leaves it `Int32(-next)`, where `next` also counts that put's overwrite. |
| RingModel.PutAllStatus | src/ringbuffer.c:125-141 | After a batch of fewer than 2^32 puts the contents are the bounded FIFO's puts. The int32 sum of statuses is 0 exactly when the old contents plus the batch fit in `ring_mask` bytes. |
| RingModel.StatusSumZero | src/ringbuffer.c:135-138 | Fewer than 2^32 overwrites never wrap the sum back to 0, so the sum is 0 exactly when nothing was overwritten. |
| RingModel.GetMoreRemoved | src/ringbuffer.c:150-165 | `ringbuffer_get_more` removes at most the live bytes, and at most `size` of them, or 1 when `size` is 0. |
| RingModel.GetMoreCount | src/ringbuffer.c:156-167 | The count `ringbuffer_get_more` returns as written is the number of bytes it removes, plus one exactly when the buffer was not empty and `size` exceeded the live count. |
| RingModel.GetUpToCount | src/ringbuffer.h:77-85 | The documented count is at most `size` and at most the live count, and it equals one of them. |
| RingModel.GetMoreOverCounts | src/ringbuffer.c:156-163 | As written, asking for more than is live drains the live bytes but returns one more than that, not the documented count. |
| RingModel.GetMoreZeroSize | src/ringbuffer.c:156-163 | As written, `size == 0` on a non-empty buffer removes one byte and returns 1, where the documented count is 0. |
| RingModel.GetMoreAgreesWithinLive | src/ringbuffer.c:156-163 | For 1 <= size <= live, the removed count, the returned count and the documented count are all `size`. |
| RingBuffers.RingBuffer.Init | src/ringbuffer.c:60-72 | Init binds the caller's storage, sets `ring_mask` to size - 1 and both indices to 0, and leaves the contents empty. |
| RingBuffers.RingBuffer.IsFull | src/ringbuffer.c:33-49 | Computed from the indices alone, full holds exactly when `ring_mask` bytes are live. |
| RingBuffers.RingBuffer.IsEmpty | src/ringbuffer.c:51-58 | Computed from the indices alone, empty holds exactly when no byte is live. |
| RingBuffers.RingBuffer.Clear | src/ringbuffer.c:74-79 | Clear sets both indices to 0, leaves the storage alone and empties the contents. |
| RingBuffers.RingBuffer.Put | src/ringbuffer.c:81-105 | Put writes `data` at the old head and changes no other slot. Head moves one slot. Tail moves exactly when the buffer was full, and the result is then `CAT_ERROR`, otherwise `CAT_EOK`. The contents become the bounded FIFO's put. |
| RingBuffers.RingBuffer.Get | src/ringbuffer.c:108-123 | On an empty buffer, get returns `CAT_ERROR` and changes nothing, the destination included. Otherwise it stores the oldest byte in the destination, drops it from the contents and returns `CAT_EOK`. Head is untouched in both cases. |
| RingBuffers.RingBuffer.PutMore | src/ringbuffer.c:125-141 | The final state is that of the puts of `src[0..size)` in order, and the contents are the bounded FIFO's puts. The result is `CAT_EOK` exactly when the old contents plus `size` fit in `ring_mask` bytes, and `CAT_ERROR` otherwise. |
| RingBuffers.RingBuffer.GetMore | src/ringbuffer.c:143-168 | As written: on an empty buffer it returns 0 and changes nothing. Otherwise the oldest `GetMoreRemoved` bytes go to `out[0..]` in FIFO order and leave the buffer, and the rest of `out` is untouched. The count returned is `GetMoreCount`. |
| RingBuffers.RingBuffer.GetMoreCorrected | src/ringbuffer.h:77-85 | The documented behaviour: the oldest `min(size, live)` bytes go to `out[0..]` in order and leave the buffer, and exactly that count is returned. |
| RingBuffers.RingBuffer.LiveBytes | src/ringbuffer.c:171-182 | The traversal from tail to head collects exactly the live bytes, oldest first, and at most `ring_mask` of them. |
| Demo.PutFitting | src/main.c:56-63 | Puts that fit all return `CAT_EOK` and append their bytes. |
| Demo.PutRolling | src/main.c:68-72 | One put into a full 16-byte buffer returns `CAT_ERROR` and rolls the live window forward by one byte. |
| Demo.PutOverwriting | src/main.c:66-73 | Each put into the full 16-byte buffer returns `CAT_ERROR`. The live bytes end as the last 15 bytes put. |
| Demo.GetEach | src/main.c:78-89 | Single gets return the live bytes oldest first, with `CAT_EOK` each, then `CAT_ERROR` once the buffer is empty. |
| Demo.OverflowThenDrain | src/main.c:65-89 | From the full buffer holding 0..14, puts of 15..30 each return `CAT_ERROR` and leave 16..30. Sixteen gets then yield 16..30 with `CAT_EOK`, and a final `CAT_ERROR`. |
| Demo.PutFiveGetTwo | src/main.c:23-49 | Puts of 0..4 all return `CAT_EOK`. Two gets yield 0 and then 1, and leave the contents [2, 3, 4]. |
| Demo.FillOverflowDrain | src/main.c:51-89 | After a clear, puts of 0..14 all return `CAT_EOK` and the buffer is full. Puts of 15..30 each return `CAT_ERROR`, leaving 16..30. Sixteen gets then yield 16..30 with `CAT_EOK`, and a final `CAT_ERROR`. |
| Demo.Overflowed | src/ringbuffer.c:125-141 | One `ringbuffer_put_more` of 0..30 into a fresh 16-byte buffer leaves 16..30 and returns `CAT_ERROR`. |
| Demo.DrainAsWritten | src/ringbuffer.c:143-168 | As written, `ringbuffer_get_more` of 16 after that overflow retrieves 16..30 but returns 16. |
| Demo.DrainCorrected | src/ringbuffer.h:77-85 | The documented behaviour returns 15 for the same drain and retrieves 16..30. |

## Left out

- Output of `ringbuffer_print_all` and of `src/main.c`: the `printf` calls are not modelled. Only the traversal of `ringbuffer_print_all` is kept, as `LiveBytes` and `Walk`.
- `CAT_ASSERT`: modelled as preconditions. The NULL-pointer checks are implied by Dafny's non-null arrays. `catos_types.h`, `cat_error.h` and `catos_config.h` are not part of this model.
- RingBuffers.RingBuffer.Init: requires the corrected capacity check, a nonzero power of two. The source's macro also admits 0, and `Mask.MacroAcceptsZero` states that case.
- `MIN_RINGBUFFER_SIZE`: not modelled, because its check is commented out in the source.
- RingModel.Count: the masked uint32 count `(head - tail) & ring_mask` is not proved equal to the modular count in a bv32 lemma; the rest of the model counts in naturals with `%`. The equality rests on three proved facts: `Mask.ValidCapacityAtMostHalf` (so `head + capacity - tail` cannot wrap), `Mask.MaskIgnoresCap` (for tail > head, the wrapped difference and `head + capacity - tail` mask alike) and `Mask.MaskKeepsSmall` (a value below the capacity is unchanged by the mask). It also needs the unproved bv32 step that `head + capacity - tail < capacity` when `head < tail < capacity <= 2^31`. The solver does not settle that step on 32-bit words within the resource limit.
- Aliasing: the destination of `Get`, `GetMore` and `GetMoreCorrected` and the source of `PutMore` must be arrays other than the buffer's own storage. The C code would allow them to overlap.
- Pointer arithmetic: `get_more` advancing `p` is modelled as the index `cnt` into `out`.
- Integer widths: indices and sizes are naturals. Bulk sizes are required to be below 2^32, matching `cat_uint32_t`. The signed `ret` sum of `ringbuffer_put_more` is modelled as int32 two's-complement wrap-around (`Int32`), which C leaves undefined.
- Concurrency: the source has none, and the model assumes single-threaded use.
- RingBuffers.RingBuffer.Valid: does not include the power-of-two property of the capacity. The model's index arithmetic is modulo any capacity, so that property is needed only for the bv32 masking facts of `Mask`.
- Demo.FillOverflowDrain: the two gets that `src/main.c` makes before the clear are left out. The clear empties the buffer whatever they did.
- The header documents `ringbuffer_get_more` as returning the number of bytes actually retrieved (src/ringbuffer.h:83). That is 15 for a drain of 16 after the overflow, but the code returns 16. The model follows the code (`GetMore`, `Demo.DrainAsWritten`) and states the documented behaviour separately (`GetMoreCorrected`, `Demo.DrainCorrected`).

## Findings

| source | as written | input that shows it | evidently intended | confidence | as-written member | corrected member |
|---|---|---|---|---|---|---|
| src/ringbuffer.c:25-26 | `IS_POWER_OF_TWO(0)` is true, so `ringbuffer_init` accepts size 0 with `ring_mask` 0xFFFFFFFF | `buffer_size = 0`: the first put writes slot 0 of a zero-byte area and moves head to 1 | the capacity is a nonzero power of two, and every index stays below it | high; not executed | Mask.IsPowerOfTwoMacro | Mask.ValidCapacity |
| src/ringbuffer.c:156-163 | the do-while counts the last, failing get, so asking for more than is live returns live + 1 | 15 live bytes and `size = 16`: 15 bytes retrieved, 16 returned | return the number of bytes actually retrieved (src/ringbuffer.h:83) | high; not executed | RingBuffers.RingBuffer.GetMore | RingBuffers.RingBuffer.GetMoreCorrected |
| src/ringbuffer.c:156-163 | the do-while runs once even for `size = 0`, taking a byte and writing `p_data[0]` | one live byte and `size = 0`: the byte is removed into `p_data[0]` and 1 is returned | retrieve nothing and return 0 | high; not executed | RingModel.GetMoreZeroSize | RingBuffers.RingBuffer.GetMoreCorrected |
