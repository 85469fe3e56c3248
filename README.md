# arclib core: byte, bitfield, optvector and the parallel chunk partitioner

A Dafny model of four pieces of the arclib C++ utility library:

- `byte` (`include/arclib/byte.h`): an 8-bit value with bitwise operators and a
  single-bit proxy, `bitref`. Module `Bytes`, file `byte.dfy`. The operators that return a
  new byte are functions on `bv8`. The compound assignments and the bitref assignment are
  methods of the `Byte` and `BitRef` classes, and they change a `val` field in place.
  Every operator is specified digit by digit against `Digit`, the binary digit obtained by
  repeated halving.
- `bitfield` (`include/arclib/bitfield.h`): a bit array stored in a heap buffer of bytes.
  Module `Bitfields`, file `bitfield.dfy`. The `Bitfield` class keeps its buffer in a
  nullable array `field` and its byte count in `alloc`. The allocation, copy and move
  helpers are methods whose loops copy and zero-fill the buffer. A `FieldBitRef` writes one
  bit with the set-or-clear formula.
- `optvector<T>` (`include/arclib/optvector.h`): a growable array of optional slots. Erasing
  a slot leaves it vacant without moving anything. Module `OptVectors`, file
  `optvector.dfy`. The `OptVector<T>` class holds:
  - an element array `data`;
  - a `Bitfield` presence mask;
  - `alloc` and `size`.

  Its abstract value `Slots()` is a `seq<Option<T>>`. Reallocation and copying move the
  present elements with a loop. Iterators are modelled by their `uint64` index. Methods
  that allocate promise fresh storage, through `KeepsOrAllocates` or directly. The move
  operations promise that they install the source's old storage. A caller that may change an
  optvector's storage and mask may therefore go on changing them after the call.
- `run_in_parallel` (`include/arclib/thread.h`): splits an index range into chunks for a
  thread pool. Module `Parallel`, file `thread.dfy`. The method `RunInParallel` has the
  source's two loops: the sequential one, and the loop that enqueues one job per chunk. It
  is proved equal to the specification function `PlanOf`. The lemmas about `PlanOf` state:
  - every index is processed exactly once;
  - the shape of the chunks;
  - bounds on how many chunks there are.

The `uint32`/`uint64` bounds and `std::min` that several of these use are defined once,
in module `Integers` (file `integers.dfy`).

Where the code and its comments disagree, the model follows the code:

- `run_in_parallel`'s comment (thread.h:229-231) says the range is cut into at most
  `schedule_factor * num_workers` chunks. The code can produce up to twice as many, less
  one. For example, 7 elements on 4 workers give 7 chunks. `QueuedChunkCount` and
  `MoreChunksThanWorkers` state this.
- The resize test (tests/bitfield_test.cpp:55-68) passes byte counts to
  `bitfield::resize`. The code takes a bit count that must be a multiple of 8, so
  `Resize` follows the code. `ShrinkThenGrow` states the test's second block in the
  code's units.

## Model

| member | source | states |
|---|---|---|
| Bytes.Mask | include/arclib/byte.h:87-88 | a bitref's mask `1 << pos` has exactly one set digit, at `pos` |
| Bytes.BitAt | include/arclib/byte.h:79-81 | reading a bitref, `(val & mask) != 0`, gives binary digit `pos` of the value |
| Bytes.Not | include/arclib/byte.h:168-171 | every digit of `~a` is the complement of the same digit of `a` |
| Bytes.NotNot | include/arclib/byte.h:168-171 | complementing twice gives the original byte |
| Bytes.And | include/arclib/byte.h:174-176 | a digit of `a & b` is set exactly when it is set in both |
| Bytes.Or | include/arclib/byte.h:179-181 | a digit of `a \| b` is set exactly when it is set in either |
| Bytes.Xor | include/arclib/byte.h:184-186 | a digit of `a ^ b` is set exactly when the operands' digits differ |
| Bytes.ShiftLeft | include/arclib/byte.h:189-191 | digit `i` of `a << s` is digit `i - s` of `a`, or 0 when `i < s`; amounts 8 to 31 clear the byte; amounts of 32 or more are excluded |
| Bytes.ShiftRight | include/arclib/byte.h:194-196 | digit `i` of `a >> s` is digit `i + s` of `a`, or 0 past digit 7 |
| Bytes.Equal | include/arclib/byte.h:202-204 | `a == b` holds exactly when all eight digits agree |
| Bytes.NotEqual | include/arclib/byte.h:207-209 | `a != b` is the negation of `a == b` |
| Bytes.Spread | include/arclib/byte.h:71 | `-(uint8)b` has every digit equal to `b` |
| Bytes.WithBit | include/arclib/byte.h:70-73 | the exclusive-or write sets digit `pos` to `b` and keeps the other seven |
| Bytes.ReadAfterWrite | include/arclib/byte.h:70-81 | reading a bitref after assigning `b` through it gives `b` |
| Bytes.WriteSameBitIsIdentity | include/arclib/byte.h:70-81 | writing a digit's own value leaves the byte unchanged |
| Bytes.SetOrClearIsWithBit | include/arclib/bitfield.h:263-266 | the bitfield bitref's `b ? v \|= mask : v &= ~mask` gives the same byte as the byte bitref's exclusive-or formula |
| Bytes.Byte.constructor | include/arclib/byte.h:115-116 | a default byte is 0 |
| Bytes.Byte.FromUint8 | include/arclib/byte.h:122-123 | a byte built from a `uint8` casts back to that `uint8` |
| Bytes.Byte.Copy | include/arclib/byte.h:119 | a copy has the same value |
| Bytes.Byte.AsUint8 | include/arclib/byte.h:230-232 | the explicit `uint8` cast gives the value whose eight digits are the ones the byte's bitrefs read |
| Bytes.Byte.Assign | include/arclib/byte.h:129-132 | assignment replaces the value |
| Bytes.Byte.AndAssign | include/arclib/byte.h:135-138 | `&=` leaves `And` of the old value and the operand |
| Bytes.Byte.OrAssign | include/arclib/byte.h:141-144 | `\|=` leaves `Or` of the old value and the operand |
| Bytes.Byte.XorAssign | include/arclib/byte.h:147-150 | `^=` leaves `Xor` of the old value and the operand |
| Bytes.Byte.ShiftLeftAssign | include/arclib/byte.h:153-156 | `<<=` leaves `ShiftLeft` of the old value, with the same range of amounts |
| Bytes.Byte.ShiftRightAssign | include/arclib/byte.h:159-162 | `>>=` leaves `ShiftRight` of the old value |
| Bytes.Byte.Subscript | include/arclib/byte.h:215-218 | `b[pos]`, with `pos < 8`, is a bitref on this byte with mask `Mask(pos)` |
| Bytes.BitRef.constructor | include/arclib/byte.h:87-88 | a bitref records its byte and the mask of its position |
| Bytes.BitRef.Read | include/arclib/byte.h:79-81 | the bool cast is digit `pos` of the referenced byte |
| Bytes.BitRef.Assign | include/arclib/byte.h:70-73 | assigning `b` changes digit `pos` of the referenced byte to `b` and nothing else |
| Bytes.BitRef.AssignFrom | include/arclib/byte.h:65-67 | assigning one bitref to another copies the bit that was read |
| Bitfields.BitsOf | include/arclib/bitfield.h:295-298 | bit `i` of a bitfield is digit `i % 8` of byte `i / 8`; there are eight bits per byte |
| Bitfields.Reallocated | include/arclib/bitfield.h:196-215 | a reallocation to `k` bytes has `k` bytes, keeps the common prefix and zero-fills the rest |
| Bitfields.PutBitChangesOnlyThatBit | include/arclib/bitfield.h:263-266 | writing bit `i` through a bitref changes bit `i` of the bit sequence and no other |
| Bitfields.ReallocatedBits | include/arclib/bitfield.h:196-215 | after reallocating to `k` bytes there are `8k` bits; the bits of kept bytes are unchanged and the added bits are false |
| Bitfields.ShrinkThenGrow | tests/bitfield_test.cpp:60-68 | shrinking and then growing again keeps the leading bits and clears every bit after them |
| Bitfields.Bitfield.constructor | include/arclib/bitfield.h:54-55 | a default bitfield has no buffer and no bits |
| Bitfields.Bitfield.WithBytes | include/arclib/bitfield.h:74-77 | a bitfield of `n` bytes has `8n` bits, all false |
| Bitfields.Bitfield.Copy | include/arclib/bitfield.h:58-61 | a copy holds the same bytes in a buffer of its own |
| Bitfields.Bitfield.Move | include/arclib/bitfield.h:64-67 | a move takes over the source's buffer and leaves the source empty |
| Bitfields.Bitfield.Size | include/arclib/bitfield.h:91-93 | `size()` is the number of bits, eight per allocated byte |
| Bitfields.Bitfield.Resize | include/arclib/bitfield.h:102-106 | `resize(bits)`, with `bits` a multiple of 8, reallocates to `bits / 8` bytes and then has exactly `bits` bits |
| Bitfields.Bitfield.Realloc | include/arclib/bitfield.h:196-215 | reallocation to zero empties the bitfield; otherwise the new buffer is fresh and its bytes are `Reallocated` of the old ones |
| Bitfields.Bitfield.Dealloc | include/arclib/bitfield.h:222-225 | after `dealloc` the bitfield holds no bytes and has no buffer |
| Bitfields.Bitfield.DeallocAsWritten | include/arclib/bitfield.h:222-225 | `dealloc` as written clears `_alloc` but keeps `_field`: a bitfield that held a buffer still points at it, so the `dst._field == nullptr` requirement of `copy_into`/`move_into` (lines 152, 179) fails, and `_alloc == 0` with a buffer breaks the class invariant |
| Bitfields.Bitfield.CopyInto | include/arclib/bitfield.h:150-165 | into another bitfield without a buffer, `copy_into` puts the source's bytes in a fresh buffer |
| Bitfields.Bitfield.MoveInto | include/arclib/bitfield.h:177-189 | into another bitfield without a buffer, `move_into` transfers the buffer and leaves the source empty |
| Bitfields.Bitfield.CopyAssign | include/arclib/bitfield.h:112-117 | copy assignment leaves the source's bytes; self-assignment changes nothing |
| Bitfields.Bitfield.MoveAssign | include/arclib/bitfield.h:120-125 | move assignment takes the source's buffer and empties the source; self-assignment changes nothing |
| Bitfields.Bitfield.Subscript | include/arclib/bitfield.h:295-298 | `bf[bit]`, with `bit < size()`, is a bitref on byte `bit / 8` at digit `bit % 8` |
| Bitfields.Bitfield.Get | include/arclib/bitfield.h:300-303 | reading `bf[bit]` gives bit `bit` of the stored bit sequence |
| Bitfields.Bitfield.Set | include/arclib/bitfield.h:263-266 | `bf[bit] = b` sets that bit to `b` and leaves every other bit |
| Bitfields.FieldBitRef.constructor | include/arclib/bitfield.h:282-283 | a bitref records its byte and the mask of its digit |
| Bitfields.FieldBitRef.Read | include/arclib/bitfield.h:274-276 | the bool cast is the digit of the referenced byte |
| Bitfields.FieldBitRef.Assign | include/arclib/bitfield.h:263-266 | assigning `b` changes the referenced digit to `b`; every other byte and digit is kept |
| Bitfields.FieldBitRef.AssignFrom | include/arclib/bitfield.h:257-260 | bitref-to-bitref assignment copies the bit that was read |
| OptVectors.RoundUp8 | include/arclib/optvector.h:463 | `(n + 7) & ~7` is the least multiple of 8 that is at least `n` |
| OptVectors.GrowRequest | include/arclib/optvector.h:319-320 | a full optvector requests `INITIAL_SIZE` (8) from capacity 0, and otherwise `alloc * 1.5` truncated to an integer |
| OptVectors.GrownCapacity | include/arclib/optvector.h:319-321 | the capacity after growth is the request rounded up to a multiple of 8 by `realloc` (line 463): a multiple of 8, at least the request and less than 8 beyond it |
| OptVectors.GrowthBounds | include/arclib/optvector.h:316-322 | growth from a full optvector gives a strictly larger multiple of 8: 8 from empty, otherwise between `1.5 * alloc` and `1.5 * alloc + 7` |
| OptVectors.ReallocKeepsSlots | include/arclib/optvector.h:461-477 | moving the present elements while the mask is reallocated keeps every slot |
| OptVectors.SlotsOfPush | include/arclib/optvector.h:316-328 | writing a present element just past the last slot appends it to the slots |
| OptVectors.SlotsOfOverwrite | include/arclib/optvector.h:228-242 | writing a present element at an existing index replaces exactly that slot |
| OptVectors.SlotsOfClear | include/arclib/optvector.h:488-494 | clearing the mask bit of an index vacates exactly that slot |
| OptVectors.SlotsOfPrefix | include/arclib/optvector.h:370-373 | decreasing the size drops the trailing slots and keeps the rest |
| OptVectors.Advance | include/arclib/optvector.h:545-549 | `it += n` stays in range: within the range it moves by `n`; past `size` without wrapping, the state check fails |
| OptVectors.Retreat | include/arclib/optvector.h:552-556 | `it -= n` stays in range: from `idx >= n` it moves back by `n`; a wrap that lands past `size` fails the state check |
| OptVectors.OptVector.constructor | include/arclib/optvector.h:68-69 | a default optvector has no slots and capacity 0; its storage and mask are new objects and the mask has no buffer |
| OptVectors.OptVector.Copy | include/arclib/optvector.h:72-81 | a copy has the same slots in fresh storage; the corrected version gives an empty source capacity 0 |
| OptVectors.OptVector.CopyAsWritten | include/arclib/optvector.h:72-81 | the copy constructor as written copies `_alloc` and `_size` and has the source's slots when the source is not empty; an empty source with capacity gives a copy whose capacity exceeds its empty storage, which breaks the invariant: `push_back` neither reallocates nor finds slot `size` in the storage |
| OptVectors.OptVector.Move | include/arclib/optvector.h:84-89 | a move takes the source's slots and capacity and leaves the source empty, with capacity 0 |
| OptVectors.OptVector.Empty | include/arclib/optvector.h:178-180 | `empty()` holds exactly when there are no slots |
| OptVectors.OptVector.Size | include/arclib/optvector.h:186-188 | `size()` is the number of slots |
| OptVectors.OptVector.Capacity | include/arclib/optvector.h:204-206 | the capacity is a multiple of 8 and at least the number of slots |
| OptVectors.OptVector.At | include/arclib/optvector.h:104-107 | `at(idx)`, with `idx < size`, is slot `idx`; it holds a value exactly when the mask bit is set |
| OptVectors.OptVector.SetAt | include/arclib/optvector.h:48-51 | a write through `at(idx).val` puts `v` in a present slot and keeps a vacant slot vacant, since the const `has_val` cannot be set; every other slot is kept |
| OptVectors.OptVector.Element | include/arclib/optvector.h:626-630 | an iterator's `->` on a present slot gives that slot's element |
| OptVectors.OptVector.Reserve | include/arclib/optvector.h:196-198 | afterwards the capacity is at least `cap`; the slots are unchanged; nothing is reallocated when the capacity already sufficed |
| OptVectors.OptVector.Clear | include/arclib/optvector.h:214-219 | every slot is removed and the capacity is kept |
| OptVectors.OptVector.Insert | include/arclib/optvector.h:228-242 | insertion at `end()` appends; below `size` it overwrites exactly slot `pos` with the value, keeping size and capacity |
| OptVectors.OptVector.Erase | include/arclib/optvector.h:295-297 | erasing vacates slot `pos` and moves nothing |
| OptVectors.OptVector.EraseRange | include/arclib/optvector.h:308-310 | erasing `[start, stop)` vacates exactly those slots and keeps every other slot |
| OptVectors.OptVector.PushBack | include/arclib/optvector.h:316-328 | `push_back` appends a present slot; when full, the capacity grows to `GrownCapacity`; otherwise it is unchanged |
| OptVectors.OptVector.AppendInPlace | include/arclib/optvector.h:324-327 | with room left, `val` becomes a new last, present slot; capacity, storage and mask object are unchanged |
| OptVectors.OptVector.PopBack | include/arclib/optvector.h:370-373 | `pop_back` on a non-empty optvector removes the last slot and clears its mask bit |
| OptVectors.OptVector.CopyAssign | include/arclib/optvector.h:382-400 | copy assignment leaves the source's slots; an empty source leaves capacity 0 |
| OptVectors.OptVector.CopyFrom | include/arclib/optvector.h:386-396 | after `dealloc`, copying a non-empty source gives its slots and its capacity |
| OptVectors.OptVector.MoveAssign | include/arclib/optvector.h:403-419 | move assignment takes the source's slots and leaves the source empty with capacity 0 |
| OptVectors.OptVector.TakeFrom | include/arclib/optvector.h:407-415 | after `dealloc`, the storage and mask are taken over with the source's slots, and the source is left valid, empty and with capacity 0 |
| OptVectors.OptVector.Dealloc | include/arclib/optvector.h:445-452 | `dealloc` removes every slot and the storage, and keeps the mask object |
| OptVectors.OptVector.Realloc | include/arclib/optvector.h:461-477 | `realloc(n)`, with `n` at least the capacity, gives capacity `n` rounded up to a multiple of 8, with fresh storage and the same slots |
| OptVectors.OptVector.Relocate | include/arclib/optvector.h:464-473 | the mask is resized to the new capacity and the present elements are copied into fresh storage of that length, which gives the same slots over the resized mask |
| OptVectors.OptVector.DestructElem | include/arclib/optvector.h:488-494 | `destruct_elem(idx)`, with `idx < size`, vacates slot `idx` and clears only that mask bit |
| OptVectors.OptVector.CopyPresent | include/arclib/optvector.h:78-80 | the element-copying loop copies every index whose mask bit is set |
| Parallel.NumChunks | include/arclib/thread.h:245 | `schedule_factor * num_workers` is the `uint64` product, exact when it does not overflow |
| Parallel.ChunkSize | include/arclib/thread.h:245-252 | the chunk size is at least `min_chunk_size`; unraised, `k` chunks of it fit in the range but `k` chunks one longer do not; raised to the minimum, `k` chunks overrun the range |
| Parallel.Admissible | include/arclib/thread.h:238-245 | admissible arguments (range below 2^63, factors non-zero `uint64`, `num_workers` a `uint32`, non-zero product) give a range whose double fits in `uint64` and a non-zero `uint64` chunk count |
| Parallel.Chunks | include/arclib/thread.h:260-274 | the chunks the enqueueing loop produces from `idx_begin`: none exactly when `idx_begin == range_size`, and never more than the indices left |
| Parallel.PlanOf | include/arclib/thread.h:238-278 | what a call does: process the range on the caller or enqueue chunks, never both, and something exactly when the range is not empty |
| Parallel.ChunksOrdered | include/arclib/thread.h:261-274 | the enqueued chunks lie in the range, are non-empty, hold at most `chunk_size` indices and are in increasing order |
| Parallel.ChunksTile | include/arclib/thread.h:261-274 | the chunks start at the range's start, each ends where the next begins, and the last ends at the range's end; all but the last hold exactly `chunk_size` indices |
| Parallel.ChunksCover | include/arclib/thread.h:261-274 | the chunks, run in enqueueing order, visit every index of the range once, in order |
| Parallel.ChunksPartition | include/arclib/thread.h:261-274 | every index lies in exactly one chunk, whatever order the jobs run in |
| Parallel.ChunkCount | include/arclib/thread.h:261-274 | the loop enqueues `ceil(range / chunk_size)` chunks |
| Parallel.PlanCoversRange | include/arclib/thread.h:238-278 | each index is processed exactly once: all on the caller when the range fits in one chunk, otherwise by the enqueued jobs; never both |
| Parallel.QueuedChunksShape | include/arclib/thread.h:245-274 | when jobs are enqueued there are at least two; all but the last hold at least `min_chunk_size` indices; `idx_end + chunk_size` never wraps past 2^64 |
| Parallel.QueuedChunkCount | include/arclib/thread.h:245-252 | with `k = schedule_factor * num_workers`, the number of jobs is at most `2k - 1`; it is at least `k` when the chunk size was not raised and at most `k` when it was |
| Parallel.MoreChunksThanWorkers | include/arclib/thread.h:229-231 | 7 elements on 4 workers with the default factors give 7 chunks, more than the comment's bound of 4 |
| Parallel.RunChunk | include/arclib/thread.h:266-268 | a job applies `func` to the indices of its chunk, in order |
| Parallel.RunInParallel | include/arclib/thread.h:238-278 | the two loops produce exactly the plan `PlanOf`: the sequential visit order or the chunks enqueued |
| Parallel.Enqueue | include/arclib/thread.h:261-274 | the enqueueing loop yields exactly `Chunks(0, range, chunk_size)`, and `idx_end + chunk_size` stays below 2^64 |
| Parallel.RunInParallelDefault | include/arclib/thread.h:303-305 | the overload without factors uses 1 and 1, and processes every index exactly once |

## Left out

- The thread pool is not part of this model: its workers, job queue, mutex, condition
  variables, `start`, `finish`, `terminate`, `enqueue_job` and `wait` are concurrency. A plan records the
  jobs in enqueueing order. `ChunksPartition` states what holds whatever order they run in.
- Parallel.RunInParallel: requires `schedule_factor * num_workers` to be non-zero modulo
  2^64. The source divides by that product, so for a pool that was never started (0
  workers) the division is undefined.
- Parallel.RunInParallel: the range is modelled by its size, and `func` by the index it
  receives. Iterator types and the side effects of `func` are not modelled. The size is
  below 2^63 because `std::distance` gives a signed 64-bit difference.
- `memory.h` and `verify.h` are not part of this model. Allocation is Dafny's `new`, and
  allocation failure is not modelled. A zero-length array stands for an optvector's null
  `_data`.
- Element construction and destruction (`new (p) T(...)`, `~T()`) have no observable effect
  in the model. The destructor loops of `dealloc` and `clear` are therefore not
  represented.
- `emplace` and `emplace_back` construct the element from arguments. Otherwise they are
  `insert` and `push_back`, which the model takes the constructed value for. The copy and
  move overloads of `insert` and `push_back` are one method each.
- `optvector::operator[]` is `at` without the bound assertion. Dafny needs every index in
  range, so only `At` is modelled, with `SetAt` for writes through the returned reference.
- Iterator objects are modelled by their index:
  - `begin`/`cbegin` are 0 and `end`/`cend` are `size`;
  - `++` and `--` are `Advance` and `Retreat` by 1;
  - the post-increment and post-decrement forms return the old index;
  - equality is index equality.

  Iterators over different optvectors are not modelled.
- OptVectors.OptVector.PushBack: an element passed by reference from the same optvector
  dangles once `realloc` frees the old storage. The model passes values, so that aliasing
  is not represented.
- OptVectors.OptVector.CopyAssign: the mask is modelled as a separate `Bitfield` object, so
  assignment between two different optvectors requires that they do not share one. In the
  source the mask is a member sub-object, which two optvectors never share.
- OptVectors.OptVector.MoveAssign: the same requirement on distinct masks, for the same reason.
- OptVectors.OptVector.CopyAssign, OptVectors.OptVector.CopyFrom, OptVectors.OptVector.MoveAssign
  and OptVectors.OptVector.TakeFrom are modelled over the corrected bitfield `dealloc`. With
  `dealloc` as written, assigning onto an optvector whose mask holds a buffer fails the
  bitfield's `copy_into`/`move_into` assertion (see Findings). The model promises the
  intended result, not the failure.
- OptVectors.OptVector.Clear: `clear()` names an undeclared `idx` (optvector.h:216) and does
  not compile. The model gives the evident intent: every slot removed, capacity kept.
- OptVectors.OptVector.EraseRange: the loop's post-increment builds an `iterator` from a
  `const_iterator` (optvector.h:566-569), which has no such conversion, so it fails to
  compile once instantiated. The model gives the evident intent: erase each index in turn.
- Widths of optvector sizes and capacities: sizes and capacities are unbounded naturals.
  `_alloc * GROW_FACTOR` is computed in `double` and truncated; it is modelled as
  `alloc * 3 / 2`, which is exact for capacities below 2^53.
- Bitfields.Bitfield.Size: `_alloc * 8` is unbounded, so wrap-around for bitfields of 2^61
  bytes or more is not modelled.
- Bitfields.FieldBitRef: a bitref holds the buffer it was made on. After a `realloc` it
  still reads and writes that old buffer, whereas the source's `bitref` refers to freed
  memory. The model does not represent that dangling reference, which the source leaves
  undefined.
- `bitref::operator!` (bitfield.h:269-271) is the negation of `Read`. The conversion
  constructors from mutable to const bitrefs and iterators are not separate members. The
  const overloads of the subscript and access operators are the same members as the
  non-const ones.

## Findings

| source | as written | input that shows it | evidently intended | confidence | as-written member | corrected member |
|---|---|---|---|---|---|---|
| include/arclib/bitfield.h:222-225 | `dealloc` frees the buffer and clears `_alloc`, but leaves `_field` pointing at the freed buffer | `bitfield a(1), b(1); a = b;`: `copy_into` asserts `dst._field == nullptr` (line 152) and fails. Likewise `bitfield a(1); a.resize(0);` followed by destruction frees the buffer twice. Optvector assignment inherits it: `optvector<int> a, b; a.push_back(1); b.push_back(2); a = b;` reaches the same assertion through `_mask = ov._mask` (optvector.h:390), and move assignment through `_mask = std::move(ov._mask)` (optvector.h:409) | `dealloc` also sets `_field = nullptr`, so a bitfield without bytes has no buffer | high (not executed) | Bitfields.Bitfield.DeallocAsWritten | Bitfields.Bitfield.Dealloc |
| include/arclib/optvector.h:72-81 | the copy constructor copies `_alloc` and `_size` but allocates `_data` only when the source is not empty | `optvector<int> a; a.push_back(1); a.pop_back(); optvector<int> b(a); b.push_back(2);`: `b` has capacity 8 and null storage, so `push_back` writes through null | an empty source gives capacity 0 and no storage, as copy assignment does (lines 384-385) | high (not executed) | OptVectors.OptVector.CopyAsWritten | OptVectors.OptVector.Copy |
