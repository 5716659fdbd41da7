# Arena allocator, modelled in Dafny

This project models a chunked region ("arena") allocator and the small option type it returns.

An arena owns a singly linked list of chunks, newest first, and four counters: `capacity`, `chunks`, `size` and `slop`. Each chunk is a block of storage with a high-water mark.

- A request is served by first fit from the head. The mark of the first chunk with room moves past the alignment padding and the block.
- When no chunk has room, a new chunk sized for the request becomes the head, and the block goes at its start.
- `clear` zeroes every chunk and resets its mark.
- `shrink` frees the empty chunks after the head.
- `delete` frees every chunk.
- There are getters for the counters, and two scans for the largest and the smallest free space.

The model has five modules:

- `Options` (option.dfy): the `Option`/`OptionView` container as one generic datatype, with its combinators.
- `Align` (align.dfy): `max` and `min`, rounding to an alignment boundary, the padding to the next boundary, and the power-of-two bit test on a 64-bit `size_t`.
- `Chunks` (chunks.dfy): the chunk record, `Chunk_new`, the first-fit search, sums over the chunk list, the two filters used by shrink, the clear reset, and the best/worst available figures.
- `ArenaStates` (arena_state.dfy): the arena as a value and its invariant, with one transition function per operation (`Created`, `Requested`, `Cleared`, `Shrunk`). The lemmas there state what each operation promises. This module also holds the literal shrink loop and the concrete scenarios.
- `Arenas` (arena.dfy): `class Arena`, whose fields are the chunk list and the four counters. Its methods update the fields in place, each proved against the transition it corresponds to: `WithCapacity` against `Created`, `RequestWithAlignment` against `Requested`, `Clear` against `Cleared` and `Shrink` against `Shrunk`. The getters are functions that read the fields. The scans and the shrink filter are loops with invariants.

Configuration and addresses:

- The platform constants are one `Config` value fixed when the arena is created:
  - `alignof(max_align_t)`;
  - `ARENA_DEFAULT_CHUNK_CAPACITY`;
  - `offsetof(struct Chunk, memory)`.
- Addresses are natural numbers, with 0 standing for `NULL`.

Allocation outcomes are parameters:

- Every allocation the source makes is a parameter: `alloc` for a chunk's storage, `headerAllocated` for the arena header. Any outcome, failure included, is allowed.
- A successful chunk allocation is a `Block`: an address aligned to `maxAlign` and the storage bytes.

## Model

| member | source | states |
|---|---|---|
| Options.Option.IsNone | deps/option/option.c:118-120 | true exactly for `None` |
| Options.Option.IsSome | deps/option/option.c:122-124 | the exact complement of `IsNone` |
| Options.Option.Map | deps/option/option.c:126-129 | `None` maps to `None`; `Some(v)` maps to the callback's option for `v` |
| Options.Option.Chain | deps/option/option.c:135-138 | the same as `map`: `None` stays `None`, `Some(v)` gives `f(v)` |
| Options.Option.Alt | deps/option/option.c:131-133 | the alternative when this is `None`, this option otherwise |
| Options.Option.Fold | deps/option/option.c:140-145 | exactly one callback decides the result: `whenNone()` on `None`, `whenSome(v)` on `Some(v)` |
| Options.Option.GetOr | deps/option/option.c:147-149 | the payload of a `Some`, the default for `None` |
| Options.Option.GetOrElse | deps/option/option.c:151-154 | the payload of a `Some`; the supplier's value only for `None` |
| Options.Option.Unwrap | deps/option/option.c:156-163 | on a `Some` returns the payload; the panic on `None` is excluded by the precondition |
| Options.Option.Expect | deps/option/option.c:165-175 | like `Unwrap`; the panic message plays no part |
| Options.Option.ToView | deps/option/option.c:114-116 | keeps the variant and the payload |
| Options.FromNullable | deps/option/option.c:110-112 | `NULL` gives `None`, any other pointer `Some` of that pointer |
| Options.FromNullableRoundTrip | deps/option/option.c:110-112 | reading a `fromNullable` back with `NULL` as default returns the pointer |
| Options.GetOrIsFold | deps/option/option.c:140-154 | `getOr` and `getOrElse` are `fold` with the identity on the payload |
| Options.UnwrapIsGetOr | deps/option/option.c:147-175 | on a `Some`, `unwrap`, `expect` and `getOr` agree whatever the default |
| Options.ChainLaws | deps/option/option.c:135-138 | `chain` satisfies the left unit, right unit and associativity laws with `Some` as unit |
| Options.AltLaws | deps/option/option.c:131-133 | `alt` is associative with `None` neutral on both sides |
| Options.ToViewIdentity | deps/option/option.c:114-116 | the view of an option is the same option |
| Align.Max | sources/arena.c:60-62 | at least both arguments and equal to one of them |
| Align.Min | sources/arena.c:64-66 | at most both arguments and equal to one of them |
| Align.RoundToAlignBoundary | sources/arena.c:68-72 | a multiple of the alignment, at least the size and below size + alignment |
| Align.RoundToAlignBoundaryIsLeast | sources/arena.c:68-72 | no multiple of the alignment at least the size is smaller: the rounding is the least one |
| Align.RoundToAlignBoundaryOfMultiple | sources/arena.c:68-72 | a size that is already a multiple is returned unchanged |
| Align.RoundToAlignBoundaryShift | sources/arena.c:68-72 | adding a multiple of the alignment commutes with the rounding |
| Align.AlignPadding | sources/arena.c:153 | the padding brings the address to a multiple of the alignment and is below the alignment |
| Align.AlignPaddingFromBase | sources/arena.c:152-153 | from an aligned base, the padding depends only on the offset; this is what makes the padding of a chunk `roundUp(size) - size` |
| Align.DividesTransitive | sources/arena.c:167 | a multiple of `maxAlign` is a multiple of every alignment dividing `maxAlign` |
| Align.Negate | sources/arena.c:49 | `~x + 1` on a w-bit word is below 2^w and equals 2^w - x for x non-zero |
| Align.PowerOfTwoBitTest | sources/arena.c:48-49 | the test `x != 0 && (x & (~x + 1)) == x` on a 64-bit `size_t`; `PowerOfTwoBitTestCorrect` shows it accepts exactly the powers of two |
| Align.PowerOfTwoBitTestCorrect | sources/arena.c:48-49 | on a `size_t`, `x != 0 && (x & (~x + 1)) == x` holds exactly for the powers of two |
| Align.BitTestCorrect | sources/arena.c:48-49 | the same on a word of any width w, for 0 < x < 2^w |
| Align.NegationAndCorrect | sources/arena.c:49 | `x & (2^w - x) == x` exactly when x is a power of two |
| Align.ComplementAnd | sources/arena.c:49 | a number and its complement within k bits share no bit |
| Chunks.Zeros | sources/arena.c:229 | `n` bytes, every one of them zero |
| Chunks.ChunkCapacity | sources/arena.c:83 | a multiple of `maxAlign`, at least the hint and the default, below `max(hint, default) + maxAlign` |
| Chunks.SmallHintIsDefault | sources/arena.c:83 | any hint up to the default, 0 included, gives the same capacity as hint 0: the default rounded to `maxAlign` |
| Chunks.StorageAsWritten | sources/arena.c:84-85 | as written, `memory` sits `offsetof(struct Chunk, memory)` bytes after the allocation |
| Chunks.StorageAsWrittenMisaligned | sources/arena.c:84-85 | with a 24-byte header and `maxAlign` 16, the as-written storage of every 16-aligned allocation is 8 mod 16 |
| Chunks.StorageIntended | sources/arena.c:84-85 | storage after the header rounded up to `maxAlign` is aligned whenever the allocation is, does not overlap the header, and leaves less than `maxAlign` bytes between them |
| Chunks.ChunkNew | sources/arena.c:81-94 | succeeds exactly when the allocation does; the chunk is well formed, empty, has the rounded capacity, takes the allocation's bytes, and has its storage at the corrected, `maxAlign`-aligned offset (see Left out) |
| Chunks.Padding | sources/arena.c:152-153 | the chunk's end of data plus the padding is aligned; the padding is below the alignment |
| Chunks.Fits | sources/arena.c:154 | the first-fit test: mark plus padding plus request within capacity; `FirstFit`, `FirstFitIsFirst` and `FirstFitNone` use it |
| Chunks.FirstFit | sources/arena.c:151-154 | the index found has room and no chunk before it has; `None` means no chunk has room |
| Chunks.FirstFitIsFirst | sources/arena.c:151-154 | conversely, the first chunk with room is the one found |
| Chunks.FirstFitNone | sources/arena.c:151-162 | conversely, when no chunk has room none is found |
| Chunks.SumSizeUpdate | sources/arena.c:156 | replacing one chunk changes the sum of marks by the difference |
| Chunks.SumCapacityUpdate | sources/arena.c:156 | replacing one chunk changes the sum of capacities by the difference |
| Chunks.NonEmpty | sources/arena.c:239 | no longer than its input, and every chunk in it holds data |
| Chunks.EmptyOnes | sources/arena.c:239 | no longer than its input, and every chunk in it is empty |
| Chunks.Partition | sources/arena.c:238-246 | the kept and the empty chunks add up to the whole list in count, capacity and data, and the empty ones hold no data |
| Chunks.SumsOfConcat | sources/arena.c:241-242 | capacity and mark sums are additive over concatenation |
| Chunks.FilterStep | sources/arena.c:238-246 | each chunk of the scan goes to exactly one of the two filters |
| Chunks.NonEmptyIdempotent | sources/arena.c:238-246 | filtering twice is filtering once, and nothing empty is left |
| Chunks.NonEmptyIsSublist | sources/arena.c:238-246 | every kept chunk comes from the list |
| Chunks.NonEmptyKeepsData | sources/arena.c:238-246 | every chunk that holds data is kept |
| Chunks.ResetChunk | sources/arena.c:228-229 | a cleared chunk: mark 0 and every byte of its capacity zero, the base and capacity kept; `ClearedProps` states it |
| Chunks.ResetAll | sources/arena.c:227-230 | the same length, with every chunk reset |
| Chunks.ResetAllSums | sources/arena.c:224-232 | a reset keeps the capacities and leaves no data |
| Chunks.BestAvailable | sources/arena.c:201-205 | the head-to-tail accumulation of `max` from 0; `BestAvailableIsMax` shows it is the largest free space, attained |
| Chunks.WorstAvailable | sources/arena.c:211-215 | the head-to-tail accumulation of `min` from `SIZE_MAX`; `WorstAvailableIsMin` shows it is the smallest free space, capped by `SIZE_MAX` |
| Chunks.BestAvailableIsMax | sources/arena.c:198-206 | the best figure is at least every chunk's free space and equals one of them |
| Chunks.WorstAvailableIsMin | sources/arena.c:208-216 | the worst figure is at most every chunk's free space and `SIZE_MAX`, and is one of them unless it is `SIZE_MAX` |
| Chunks.WorstAtMostBest | sources/arena.c:198-216 | on a non-empty list, worst never exceeds best |
| Chunks.BestAvailableAfterReset | sources/arena.c:198-232 | right after a clear, the best figure is the largest chunk capacity |
| ArenaStates.Inv | sources/arena.c:100-106 | the arena invariant: a head exists, every chunk is well formed, `capacity` is the sum of capacities, `chunks` the length, `size + slop` the sum of marks; the `...PreservesInv`, `CreatedProps`, `ClearedProps` and `ShrunkProps` lemmas show every operation keeps it |
| ArenaStates.Created | sources/arena.c:112-132 | the state `Arena_withCapacity` builds, `None` when either allocation fails; `CreatedProps` states its properties |
| ArenaStates.CreatedProps | sources/arena.c:112-132 | creation succeeds exactly when both allocations do; the arena has one empty chunk, `size == slop == 0`, `chunks == 1`, and `capacity` is the chunk's, at least the hint and the default; the invariant holds |
| ArenaStates.HitAddress | sources/arena.c:152-155 | the address a hit returns: the chunk's end of data, padded; `RequestedHit` shows it aligned and within the chunk |
| ArenaStates.Hit | sources/arena.c:155-158 | the hit state: the chunk's mark past padding and block, `size` + request, `slop` + padding; `RequestedHit` and `HitPreservesInv` state it |
| ArenaStates.Miss | sources/arena.c:166-173 | the miss state: the new chunk with the block as head, `chunks` + 1, `capacity` + its capacity, `size` + request; `RequestedMiss` and `MissPreservesInv` state it |
| ArenaStates.Requested | sources/arena.c:141-178 | first fit, else a new chunk, else `None` with nothing changed; `RequestedHit`, `RequestedMiss`, `RequestedFailure`, `RequestedAligned` and `RequestedPreservesInv` state what it promises |
| ArenaStates.RequestedPreservesInv | sources/arena.c:141-178 | a request keeps the invariant: well-formed chunks, `capacity` the sum of capacities, `chunks` the length, `size + slop` the sum of marks |
| ArenaStates.HitPreservesInv | sources/arena.c:151-162 | bumping a chunk with room keeps the invariant |
| ArenaStates.MissPreservesInv | sources/arena.c:164-177 | pushing a new empty chunk with the block keeps the invariant |
| ArenaStates.RequestedFailure | sources/arena.c:164-177 | a request fails exactly when no chunk has room and the allocation fails, and a failed request changes nothing |
| ArenaStates.RequestedHit | sources/arena.c:151-162 | on a hit the block comes from the first chunk with room; it is aligned, starts at or after the old mark and ends within capacity; `size` grows by the request, `slop` by the padding; nothing else changes |
| ArenaStates.RequestedMiss | sources/arena.c:164-177 | on a miss the new chunk is the head with mark = request and the block at its aligned start; `chunks` + 1, `capacity` + its capacity, `size` + request, `slop` unchanged, the old list follows |
| ArenaStates.RequestedAligned | sources/arena.c:159 | every address a request returns is a multiple of the alignment |
| ArenaStates.DefaultRequestOk | sources/arena.c:134-139 | `Arena_request`'s call meets every precondition of the aligned form |
| ArenaStates.Cleared | sources/arena.c:224-232 | every chunk reset, `size` and `slop` 0; `ClearedProps` states its properties |
| ArenaStates.ClearedProps | sources/arena.c:224-232 | after a clear every chunk is empty with all its bytes zero, `size == slop == 0`, the counters, capacities and bases are unchanged, and the invariant holds |
| ArenaStates.Shrunk | sources/arena.h:176 | the intended shrink: the head and the chunks with data after it, counters lowered by the empty ones; `ShrunkProps` and `ShrunkIdempotent` state its properties |
| ArenaStates.ShrunkProps | sources/arena.h:176 | the head stays, no other empty chunk is left, only empty chunks go, the survivors keep their order, `chunks` and `capacity` drop by exactly what went, and the invariant holds |
| ArenaStates.ShrunkFromScan | sources/arena.c:238-246 | the kept chunks and the counts of the scan make up the shrunk state |
| ArenaStates.ShrunkIdempotent | sources/arena.h:176 | a second shrink changes nothing |
| ArenaStates.ClearThenShrink | sources/arena.c:224-247 | a clear followed by a shrink leaves only the reset head |
| ArenaStates.NoDataFiltersOut | sources/arena.c:239 | a list with no data keeps nothing |
| ArenaStates.FirstEmpty | sources/arena.c:238-239 | the index found is the first empty chunk; `None` means no chunk is empty |
| ArenaStates.LiteralShrinkTail | sources/arena.c:238-246 | the literal loop subtracts the count and capacity of exactly the empty chunks |
| ArenaStates.AllDataNoEmpty | sources/arena.c:239 | a list whose chunks all hold data has no empty chunk |
| ArenaStates.EmptyOnesSplit | sources/arena.c:239-242 | the empty chunks split at the first empty one |
| ArenaStates.LiteralShrink | sources/arena.c:234-247 | `Arena_shrink` as written on the whole arena; `LiteralShrinkCounters` and `LiteralShrinkBreaksInvariant` state what it does |
| ArenaStates.LiteralShrinkCounters | sources/arena.c:241-242 | the literal loop's counters agree with the intended shrink's |
| ArenaStates.LiteralTailDropsBoth | sources/arena.c:240 | relinking through `head->next` drops a chunk with data that comes before an empty one |
| ArenaStates.ClearThenHitSecond | sources/arena.c:151-162 | from a valid three-chunk state with every chunk full, a clear and then a 96-byte request that passes the 64-byte head and lands at the start of the second chunk give the state the literal shrink breaks |
| ArenaStates.ClearedThree | sources/arena.c:227-231 | clearing a three-chunk arena resets each chunk |
| ArenaStates.HitSecond | sources/arena.c:151-160 | first fit skips a head without room and serves the second chunk |
| ArenaStates.LiteralShrinkBreaksInvariant | sources/arena.c:240 | the literal shrink unlinks the chunk holding data, keeps the old counters and breaks the invariant; the intended shrink keeps that chunk |
| ArenaStates.MissBeyondMaxAlign | sources/arena.c:164-167 | with alignment 2 * `maxAlign`, the miss path returns an address that is not a multiple of the alignment |
| ArenaStates.ScenarioTwoChunks | sources/arena.c:141-177 | 40 bytes at 8 from a 64-byte arena, then 40 more: the second request creates a second chunk as head; counters 80 and 2 |
| ArenaStates.ScenarioFirstRequest | sources/arena.c:151-160 | the first 40 bytes come from the start of the first chunk |
| ArenaStates.ScenarioSecondRequest | sources/arena.c:164-174 | the second 40 bytes miss and come from a new head chunk |
| Arenas.Arena.Init | sources/arena.c:122-127 | the fields describe one chunk with no data, and the invariant holds |
| Arenas.Arena.WithCapacity | sources/arena.c:112-132 | returns an arena exactly when both allocations succeed; it is fresh, valid and in the created state |
| Arenas.Arena.New | sources/arena.c:108-110 | `withCapacity` with the default capacity |
| Arenas.Arena.WithCapacityOrAbort | sources/arena.h:64-71 | the terminating form: when the allocations succeed, a valid arena in the created state |
| Arenas.Arena.NewOrAbort | sources/arena.h:56-62 | the terminating form of `Arena_new` |
| Arenas.Arena.RequestWithAlignment | sources/arena.c:141-178 | the new fields and the result are those of the request transition, and the invariant holds |
| Arenas.Arena.FindFit | sources/arena.c:151-154 | the scan's result is the first chunk with room, or none |
| Arenas.Arena.BumpChunk | sources/arena.c:155-160 | the hit path: the chunk's mark, `size` and `slop` move as the hit transition says; returns the padded address |
| Arenas.Arena.PushChunk | sources/arena.c:166-174 | the miss path: the new chunk with the block is the head, and the counters move as the miss transition says |
| Arenas.Arena.Request | sources/arena.c:134-139 | the same as the aligned request at `maxAlign` with the size rounded up to `maxAlign` |
| Arenas.Arena.RequestWithAlignmentOrAbort | sources/arena.h:87-103 | the terminating form: when a chunk has room or the allocation succeeds, the request succeeds with an aligned block |
| Arenas.Arena.RequestOrAbort | sources/arena.h:73-85 | the terminating form of `Arena_request`, returning a `maxAlign`-aligned block |
| Arenas.Arena.GetSize | sources/arena.c:180-184 | the bytes handed out: with the slop, the sum of the chunks' marks |
| Arenas.Arena.GetSlop | sources/arena.c:186-190 | the padding, at most the sum of the marks |
| Arenas.Arena.GetCapacity | sources/arena.c:192-196 | the sum of the chunk capacities |
| Arenas.Arena.GetChunks | sources/arena.c:218-222 | the length of the chunk list, at least 1 |
| Arenas.Arena.GetBestAvailable | sources/arena.c:198-206 | the largest free space of any chunk, attained by one of them; reads only |
| Arenas.Arena.GetWorstAvailable | sources/arena.c:208-216 | the smallest free space of any chunk, capped by `SIZE_MAX`; reads only |
| Arenas.Arena.Clear | sources/arena.c:224-232 | the fields are those of the clear transition, and the invariant holds |
| Arenas.Arena.KeepNonEmpty | sources/arena.c:238-246 | the scan keeps exactly the chunks with data, in order, and counts exactly the empty ones and their capacity |
| Arenas.Arena.Shrink | sources/arena.c:234-247 | the fields are those of the intended shrink, and the invariant holds |
| Arenas.Arena.Delete | sources/arena.c:249-258 | frees the chunks head first, every one of them, leaving the list empty; a null arena frees nothing |

## Left out

- Memory release (`Chunk_delete`, `Alligator_free`, the header freed by `Arena_withCapacity` and `Arena_delete`): freeing has no observable result in the model. `Arenas.Arena.Delete` returns the freed chunks in order instead.
- The allocator (deps/alligator) is replaced by the `alloc` and `headerAllocated` parameters. Any outcome is allowed, so nondeterministic failure is covered. The alignment of the header allocation plays no part.
- Panics (deps/panic): the console output, the backtrace and `abort()` are process I/O. A panic of `unwrap`/`expect` is a precondition. The `assert`s of arena.c are preconditions too.
- `Option_some`: it is the datatype constructor `Some`.
- `OptionView_*` (deps/option/option.c:35-102) have the same definitions as the `Option_*` functions. One generic datatype covers both, so they have no separate members.
- `Arena_version` is a string constant built by the preprocessor. It is outside the model.
- examples/main.c is a demonstration program. It is not part of this model.
- `size_t` overflow: the counters, `roundToAlignBoundary`, the first-fit sum `chunk->size + slop + size` (sources/arena.c:154) and the allocation size `roundToAlignBoundary(...) + capacity` (sources/arena.c:84-85) use unbounded naturals and do not wrap. In C the first-fit sum can wrap: at alignment 8, a chunk at mark 16 with capacity 64 and a request of 2^64-8 bytes give a sum of 8, so the C code takes a hit where the model's `Fits` is false and takes a miss. The bit test is the exception: it is modelled on a 64-bit word, with negation wrapping modulo 2^64.
- Pointer arithmetic beyond the chunk storage address:
  - A chunk's storage starts at `base`. A block's address is `base` plus its offset.
  - The layout of the header fields inside the allocation is abstracted to `Config.headerBytes`. The storage is placed after that header rounded up to `maxAlign`, not where the source places it (see the `Chunks.ChunkNew` line and Findings).
  - The `next` links are the order of `chunkList`.
- The return shape: arena.c returns options (`None` when out of memory), while arena.h declares plain pointers and says every function terminates when out of memory (sources/arena.h:52). The model follows arena.c. The `...OrAbort` methods model arena.h's form: they require the allocation to succeed.
- The capacity hint: arena.h says a hint of 0 selects the default (sources/arena.h:67). The code takes `max(hint, default)`, so every hint up to the default selects it. The model follows the code (`Chunks.SmallHintIsDefault`).
- Chunks.ChunkNew: places a chunk's storage at the CORRECTED offset, the header rounded up to `maxAlign` after the allocation (`Chunks.StorageIntended`), so every chunk base is `maxAlign`-aligned. The source places it at `offsetof(struct Chunk, memory)`, which on a 64-bit build with `maxAlign` 16 is 8 mod 16 (third Findings row). What the model therefore does not reproduce:
  - the padding of the hit path at alignments above 8. For example, `Arena_request(self, 40)` on a fresh arena asks for 48 bytes at 16; the source pads by 8, giving `slop` 8 and a chunk mark of 56, where the model pads by 0;
  - the first-fit decisions that such padding changes;
  - the failure of the assertion at sources/arena.c:167 on every miss at alignment 16, where the model returns a block.
- `Arena_clear` zeroes each chunk's whole capacity, not only the bytes in use. The model follows the code (`Chunks.ResetChunk`).
- Arenas.Arena.RequestWithAlignment: requires, beyond the source's own checks, that the alignment divide `maxAlign`. Without it the source's assertion at sources/arena.c:167 can fail (see Findings). The same holds for `ArenaStates.Requested` and the lemmas about it.
- Arenas.Arena.RequestWithAlignment: the first-fit scan returns the index of the chunk with room (`FindFit`), and the hit is applied after the scan (`BumpChunk`) rather than inside the loop body. The order of the effects is the same.
- Arenas.Arena.Shrink: models the intended behaviour that arena.h states (sources/arena.h:176). The scan (`KeepNonEmpty`) computes the kept chunks and the freed count and capacity, and the fields are updated after it. The literal loop is modelled separately as `ArenaStates.LiteralShrink`.

## Findings

| source | as written | input that shows it | evidently intended | confidence | as-written member | corrected member |
|---|---|---|---|---|---|---|
| sources/arena.c:240 | at an empty chunk, `Arena_shrink` sets `head->next = chunk->next`, which also unlinks every chunk between the head and that chunk, yet the counters drop only the empty one | chunks of capacity 64 (empty head), 128 (96 bytes in use) and 64 (empty), reached by a clear and a 96-byte request: the chunk in use is unlinked and leaked, and `chunks` is 2 and `capacity` 192 while one chunk of capacity 64 remains | unlink only the empty chunk, through its predecessor's `next`, so that every chunk with data stays (the header says it deallocates the chunks not in use) | high, not executed | ArenaStates.LiteralShrinkBreaksInvariant | ArenaStates.Shrunk, ArenaStates.ShrunkProps |
| sources/arena.c:141-167 | `Arena_requestWithAlignment` accepts any power-of-two alignment; on a miss it returns the new chunk's storage, which is aligned only to `maxAlign` | `maxAlign` 16, a full 64-byte chunk, a request of 32 bytes at alignment 32, and a new chunk whose storage is at 48: the block returned is at 48, not a multiple of 32 | alignments above `maxAlign` rejected, or the new chunk allocated at the requested alignment | medium, not executed | ArenaStates.MissBeyondMaxAlign | ArenaStates.RequestedAligned |
| sources/arena.c:84-85 | `Chunk_new` reserves the header rounded up to `maxAlign`, but the flexible array `memory` begins at `offsetof(struct Chunk, memory)`, which is not rounded | a 64-bit build with `maxAlign` 16: the header is 24 bytes, so storage at an allocation at 4096 begins at 4120, which is 8 mod 16; the miss path's assertion at sources/arena.c:167 then fails for a request at alignment 16 | storage starting after the header rounded up to `maxAlign`, so that it is `maxAlign`-aligned | medium, not executed | Chunks.StorageAsWrittenMisaligned | Chunks.StorageIntended |
