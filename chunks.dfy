/** Chunks of the arena (`struct Chunk` of arena.c) as records, and the
    functions over a chunk list (head first) that the arena's operations are
    specified with. A chunk's `next` link is its position in the list. */
module Chunks {
  import opened Align
  import opened Options

  newtype byte = b: int | 0 <= b < 256

  /** `n` zero bytes, what `memset(…, 0, n)` leaves. */
  function Zeros(n: nat): (z: seq<byte>)
    ensures |z| == n && forall k | 0 <= k < n :: z[k] == 0
  {
    seq(n, _ => 0)
  }

  /** The platform's strictest alignment, `alignof(max_align_t)`,
      `ARENA_DEFAULT_CHUNK_CAPACITY` from the build configuration, and the
      size of a chunk's header fields, `offsetof(struct Chunk, memory)`. */
  datatype Config = Config(maxAlign: nat, defaultChunkCapacity: nat, headerBytes: nat)

  /** The configuration the source takes for granted: `maxAlign` is a power
      of two, the build refuses a default capacity that is not positive, and
      the header holds `size`, `capacity` and `next`. */
  predicate ValidConfig(cfg: Config) {
    IsPowerOfTwo(cfg.maxAlign) && cfg.defaultChunkCapacity > 0 && cfg.headerBytes > 0
  }

  /** What a successful `Alligator_aligned_alloc` in `Chunk_new` hands back:
      the non-null address of the allocation, and the unspecified content of
      the chunk's storage bytes that follow its header. */
  datatype Block = Block(address: Pointer, memory: seq<byte>)

  /** The allocator's promise for a request of `size` bytes at `alignment`. */
  predicate BlockFor(b: Block, alignment: nat, size: nat) {
    b.address != Null && alignment > 0 && b.address % alignment == 0 && |b.memory| == size
  }

  /** A chunk: the address of its storage `base`, the high-water mark `size`
      (bytes handed out, padding included), its `capacity`, and the storage
      bytes themselves. */
  datatype Chunk = Chunk(base: Pointer, size: nat, capacity: nat, memory: seq<byte>)

  /** What every chunk of an arena satisfies. */
  predicate ChunkOk(cfg: Config, c: Chunk) {
    && cfg.maxAlign > 0 && c.base != Null && c.base % cfg.maxAlign == 0
    && c.size <= c.capacity && |c.memory| == c.capacity
    && c.capacity % cfg.maxAlign == 0 && c.capacity >= cfg.defaultChunkCapacity
  }

  /** The capacity `Chunk_new` gives a chunk for a capacity hint. */
  function ChunkCapacity(cfg: Config, hint: nat): (cap: nat)
    requires ValidConfig(cfg)
    ensures cap % cfg.maxAlign == 0
    ensures cap >= hint && cap >= cfg.defaultChunkCapacity
    ensures cap < Max(hint, cfg.defaultChunkCapacity) + cfg.maxAlign
  {
    RoundToAlignBoundary(cfg.maxAlign, Max(hint, cfg.defaultChunkCapacity))
  }

  /** Any hint up to the default, 0 included, gives a default-sized chunk. */
  lemma SmallHintIsDefault(cfg: Config, hint: nat)
    requires ValidConfig(cfg) && hint <= cfg.defaultChunkCapacity
    ensures ChunkCapacity(cfg, hint) == ChunkCapacity(cfg, 0)
    ensures ChunkCapacity(cfg, hint) == RoundToAlignBoundary(cfg.maxAlign, cfg.defaultChunkCapacity)
  {
  }

  /** Where `chunk->memory` lies in the allocation `Chunk_new` makes AS
      WRITTEN: the flexible array member begins right after the header
      fields, at `offsetof(struct Chunk, memory)`, whatever the allocation
      size reserves for the header. */
  function StorageAsWritten(cfg: Config, allocation: Pointer): (p: Pointer)
    ensures p - allocation == cfg.headerBytes
  {
    allocation + cfg.headerBytes
  }

  /** With 8-byte `size_t` and pointers the header is 24 bytes; with a
      `maxAlign` of 16 the storage of a chunk allocated at any multiple of 16
      begins 8 bytes past a multiple of 16, so a block at offset 0 of a new
      chunk is not aligned to `maxAlign`. */
  lemma StorageAsWrittenMisaligned(allocation: Pointer)
    requires allocation % 16 == 0
    ensures ValidConfig(Config(16, 64, 24))
    ensures StorageAsWritten(Config(16, 64, 24), allocation) % 16 == 8
  {
    assert allocation == 16 * (allocation / 16);
    assert allocation + 24 == 16 * (allocation / 16 + 1) + 8;
  }

  /** Where the storage must begin for the allocation size of `Chunk_new`,
      `roundToAlignBoundary(maxAlign, offsetof(…)) + capacity`, to make sense:
      after the header rounded up to `maxAlign`. It is then aligned whenever
      the allocation is, it does not overlap the header, and less than
      `maxAlign` bytes of padding separate the two. */
  function StorageIntended(cfg: Config, allocation: Pointer): (p: Pointer)
    requires ValidConfig(cfg)
    ensures allocation % cfg.maxAlign == 0 ==> p % cfg.maxAlign == 0
    ensures allocation + cfg.headerBytes <= p < allocation + cfg.headerBytes + cfg.maxAlign
  {
    var p := allocation + RoundToAlignBoundary(cfg.maxAlign, cfg.headerBytes);
    assert allocation % cfg.maxAlign == 0 ==> p % cfg.maxAlign == 0 by {
      if allocation % cfg.maxAlign == 0 {
        ModAdd(allocation, RoundToAlignBoundary(cfg.maxAlign, cfg.headerBytes), cfg.maxAlign);
      }
    }
    p
  }

  /** `Chunk_new`: `alloc` is the outcome of the one allocation it makes; the
      storage is placed after the rounded header. */
  function ChunkNew(cfg: Config, hint: nat, alloc: Option<Block>): (r: Option<Chunk>)
    requires ValidConfig(cfg)
    requires alloc.Some? ==> BlockFor(alloc.value, cfg.maxAlign, ChunkCapacity(cfg, hint))
    ensures r.IsSome() <==> alloc.IsSome()
    ensures r.Some? ==> && ChunkOk(cfg, r.value)
                        && r.value.size == 0
                        && r.value.capacity == ChunkCapacity(cfg, hint)
                        && r.value.base == StorageIntended(cfg, alloc.value.address)
                        && r.value.memory == alloc.value.memory
  {
    match alloc
    case None => None
    case Some(b) => Some(Chunk(StorageIntended(cfg, b.address), 0, ChunkCapacity(cfg, hint), b.memory))
  }

  /** Padding needed in chunk `c` for a block at `alignment`: the distance
      from its current end of data to the next aligned address. */
  function Padding(c: Chunk, alignment: nat): (pad: nat)
    requires alignment > 0
    ensures (c.base + c.size + pad) % alignment == 0
    ensures pad < alignment
  {
    AlignPadding(c.base + c.size, alignment)
  }

  /** The first-fit test of `Arena_requestWithAlignment`. */
  predicate Fits(c: Chunk, alignment: nat, size: nat)
    requires alignment > 0
  {
    c.size + Padding(c, alignment) + size <= c.capacity
  }

  /** Index of the first chunk, head to tail, with room for the block. */
  function FirstFit(cs: seq<Chunk>, alignment: nat, size: nat): (r: Option<nat>)
    requires alignment > 0
    ensures r.Some? ==> && r.value < |cs|
                        && Fits(cs[r.value], alignment, size)
                        && forall j | 0 <= j < r.value :: !Fits(cs[j], alignment, size)
    ensures r.None? ==> forall j | 0 <= j < |cs| :: !Fits(cs[j], alignment, size)
  {
    if cs == [] then None
    else if Fits(cs[0], alignment, size) then Some(0)
    else
      match FirstFit(cs[1..], alignment, size)
      case None => None
      case Some(i) => Some(i + 1)
  }

  /** Conversely, the first chunk with room is the one `FirstFit` finds. */
  lemma {:induction false} FirstFitIsFirst(cs: seq<Chunk>, alignment: nat, size: nat, i: nat)
    requires alignment > 0 && i < |cs| && Fits(cs[i], alignment, size)
    requires forall j | 0 <= j < i :: !Fits(cs[j], alignment, size)
    ensures FirstFit(cs, alignment, size) == Some(i)
  {
    if i > 0 {
      FirstFitIsFirst(cs[1..], alignment, size, i - 1);
    }
  }

  /** Conversely, when no chunk has room `FirstFit` finds none. */
  lemma {:induction false} FirstFitNone(cs: seq<Chunk>, alignment: nat, size: nat)
    requires alignment > 0
    requires forall j | 0 <= j < |cs| :: !Fits(cs[j], alignment, size)
    ensures FirstFit(cs, alignment, size) == None
  {
    if cs != [] {
      FirstFitNone(cs[1..], alignment, size);
    }
  }

  /** Sum of the chunk capacities. */
  function SumCapacity(cs: seq<Chunk>): nat {
    if cs == [] then 0 else cs[0].capacity + SumCapacity(cs[1..])
  }

  /** Sum of the chunk high-water marks. */
  function SumSize(cs: seq<Chunk>): nat {
    if cs == [] then 0 else cs[0].size + SumSize(cs[1..])
  }

  /** Replacing one chunk changes the sum of sizes by the difference. */
  lemma {:induction false} SumSizeUpdate(cs: seq<Chunk>, i: nat, c: Chunk)
    requires i < |cs|
    ensures SumSize(cs[i := c]) == SumSize(cs) - cs[i].size + c.size
  {
    if i > 0 {
      SumSizeUpdate(cs[1..], i - 1, c);
      assert cs[i := c][1..] == cs[1..][i - 1 := c];
    }
  }

  /** Replacing one chunk changes the sum of capacities by the difference. */
  lemma {:induction false} SumCapacityUpdate(cs: seq<Chunk>, i: nat, c: Chunk)
    requires i < |cs|
    ensures SumCapacity(cs[i := c]) == SumCapacity(cs) - cs[i].capacity + c.capacity
  {
    if i > 0 {
      SumCapacityUpdate(cs[1..], i - 1, c);
      assert cs[i := c][1..] == cs[1..][i - 1 := c];
    }
  }

  /** The chunks of `cs` that hold data, in order. */
  function NonEmpty(cs: seq<Chunk>): (r: seq<Chunk>)
    ensures |r| <= |cs|
    ensures forall k | 0 <= k < |r| :: r[k].size != 0
  {
    if cs == [] then []
    else (if cs[0].size != 0 then [cs[0]] else []) + NonEmpty(cs[1..])
  }

  /** The chunks of `cs` whose high-water mark is 0, in order. */
  function EmptyOnes(cs: seq<Chunk>): (r: seq<Chunk>)
    ensures |r| <= |cs|
    ensures forall k | 0 <= k < |r| :: r[k].size == 0
  {
    if cs == [] then []
    else (if cs[0].size == 0 then [cs[0]] else []) + EmptyOnes(cs[1..])
  }

  /** Splitting a list into its non-empty and its empty chunks loses nothing:
      counts and capacities add up, and the empty ones hold no data. */
  lemma {:induction false} Partition(cs: seq<Chunk>)
    ensures |cs| == |NonEmpty(cs)| + |EmptyOnes(cs)|
    ensures SumCapacity(cs) == SumCapacity(NonEmpty(cs)) + SumCapacity(EmptyOnes(cs))
    ensures SumSize(cs) == SumSize(NonEmpty(cs))
    ensures SumSize(EmptyOnes(cs)) == 0
  {
    if cs != [] {
      var h, t := cs[0], cs[1..];
      Partition(t);
      assert [h][1..] == [];
      if h.size != 0 {
        assert NonEmpty(cs) == [h] + NonEmpty(t);
        assert EmptyOnes(cs) == EmptyOnes(t);
        SumsOfConcat([h], NonEmpty(t));
      } else {
        assert NonEmpty(cs) == NonEmpty(t);
        assert EmptyOnes(cs) == [h] + EmptyOnes(t);
        SumsOfConcat([h], EmptyOnes(t));
      }
    }
  }

  lemma {:induction false} SumsOfConcat(a: seq<Chunk>, b: seq<Chunk>)
    ensures SumCapacity(a + b) == SumCapacity(a) + SumCapacity(b)
    ensures SumSize(a + b) == SumSize(a) + SumSize(b)
  {
    if a == [] {
      assert a + b == b;
    } else {
      SumsOfConcat(a[1..], b);
      assert (a + b)[0] == a[0];
      assert (a + b)[1..] == a[1..] + b;
    }
  }

  /** One step of a scan over the suffix `cs[j..]`: the chunk at `j` goes to
      exactly one of the two filters. */
  lemma FilterStep(cs: seq<Chunk>, j: nat)
    requires j < |cs|
    ensures cs[j].size != 0 ==> && NonEmpty(cs[j..]) == [cs[j]] + NonEmpty(cs[j + 1..])
                                && EmptyOnes(cs[j..]) == EmptyOnes(cs[j + 1..])
    ensures cs[j].size == 0 ==> && NonEmpty(cs[j..]) == NonEmpty(cs[j + 1..])
                                && EmptyOnes(cs[j..]) == [cs[j]] + EmptyOnes(cs[j + 1..])
                                && SumCapacity(EmptyOnes(cs[j..])) == cs[j].capacity + SumCapacity(EmptyOnes(cs[j + 1..]))
  {
    assert cs[j..][0] == cs[j] && cs[j..][1..] == cs[j + 1..];
    var e := [cs[j]] + EmptyOnes(cs[j + 1..]);
    assert e[0] == cs[j] && e[1..] == EmptyOnes(cs[j + 1..]);
  }

  /** Filtering twice is filtering once, and a filtered list has no empty
      chunk left. */
  lemma {:induction false} NonEmptyIdempotent(cs: seq<Chunk>)
    ensures NonEmpty(NonEmpty(cs)) == NonEmpty(cs)
    ensures EmptyOnes(NonEmpty(cs)) == []
  {
    if cs != [] {
      var h, t := cs[0], cs[1..];
      NonEmptyIdempotent(t);
      if h.size != 0 {
        var r := [h] + NonEmpty(t);
        assert NonEmpty(cs) == r;
        assert r[0] == h && r[1..] == NonEmpty(t);
      } else {
        assert NonEmpty(cs) == NonEmpty(t);
      }
    }
  }

  /** Every chunk of `NonEmpty(cs)` is a chunk of `cs`. */
  lemma {:induction false} NonEmptyIsSublist(cs: seq<Chunk>)
    ensures forall k | 0 <= k < |NonEmpty(cs)| :: NonEmpty(cs)[k] in cs
  {
    if cs != [] {
      NonEmptyIsSublist(cs[1..]);
    }
  }

  /** Every chunk of `cs` that holds data survives in `NonEmpty(cs)`. */
  lemma {:induction false} NonEmptyKeepsData(cs: seq<Chunk>)
    ensures forall k | 0 <= k < |cs| && cs[k].size != 0 :: cs[k] in NonEmpty(cs)
  {
    if cs != [] {
      NonEmptyKeepsData(cs[1..]);
      assert forall k | 1 <= k < |cs| :: cs[k] == cs[1..][k - 1];
    }
  }

  /** A chunk after `Arena_clear`: no data, every byte of its capacity zero. */
  function ResetChunk(c: Chunk): Chunk {
    c.(size := 0, memory := Zeros(c.capacity))
  }

  function ResetAll(cs: seq<Chunk>): (r: seq<Chunk>)
    ensures |r| == |cs|
    ensures forall k | 0 <= k < |cs| :: r[k] == ResetChunk(cs[k])
  {
    seq(|cs|, k requires 0 <= k < |cs| => ResetChunk(cs[k]))
  }

  /** Clearing keeps the capacities and drops every byte of data. */
  lemma {:induction false} ResetAllSums(cs: seq<Chunk>)
    ensures SumCapacity(ResetAll(cs)) == SumCapacity(cs)
    ensures SumSize(ResetAll(cs)) == 0
  {
    if cs != [] {
      ResetAllSums(cs[1..]);
      assert ResetAll(cs)[1..] == ResetAll(cs[1..]);
    }
  }

  /** Every chunk has its high-water mark within its capacity. */
  predicate InBounds(cs: seq<Chunk>) {
    forall k | 0 <= k < |cs| :: cs[k].size <= cs[k].capacity
  }

  /** Bytes still free at the end of a chunk: `capacity - size`. */
  function Available(c: Chunk): nat
    requires c.size <= c.capacity
  {
    c.capacity - c.size
  }

  /** The value `Arena_getBestAvailable` accumulates, head to tail from 0. */
  function BestAvailable(cs: seq<Chunk>): nat
    requires InBounds(cs)
  {
    if cs == [] then 0
    else Max(BestAvailable(cs[..|cs| - 1]), Available(cs[|cs| - 1]))
  }

  /** The value `Arena_getWorstAvailable` accumulates, head to tail from
      `SIZE_MAX`. */
  function WorstAvailable(cs: seq<Chunk>): nat
    requires InBounds(cs)
  {
    if cs == [] then SizeMax
    else Min(WorstAvailable(cs[..|cs| - 1]), Available(cs[|cs| - 1]))
  }

  /** The best available figure is the largest free space of any chunk. */
  lemma {:induction false} BestAvailableIsMax(cs: seq<Chunk>)
    requires InBounds(cs)
    ensures forall k | 0 <= k < |cs| :: Available(cs[k]) <= BestAvailable(cs)
    ensures cs != [] ==> exists k | 0 <= k < |cs| :: BestAvailable(cs) == Available(cs[k])
  {
    if cs != [] {
      var init := cs[..|cs| - 1];
      BestAvailableIsMax(init);
      assert forall k | 0 <= k < |init| :: init[k] == cs[k];
      if init != [] && BestAvailable(init) >= Available(cs[|cs| - 1]) {
        var k :| 0 <= k < |init| && BestAvailable(init) == Available(init[k]);
        assert BestAvailable(cs) == Available(cs[k]);
      } else {
        assert BestAvailable(cs) == Available(cs[|cs| - 1]);
      }
    }
  }

  /** The worst available figure is the smallest free space of any chunk,
      capped by `SIZE_MAX`. */
  lemma {:induction false} WorstAvailableIsMin(cs: seq<Chunk>)
    requires InBounds(cs)
    ensures forall k | 0 <= k < |cs| :: WorstAvailable(cs) <= Available(cs[k])
    ensures WorstAvailable(cs) <= SizeMax
    ensures WorstAvailable(cs) == SizeMax || exists k | 0 <= k < |cs| :: WorstAvailable(cs) == Available(cs[k])
  {
    if cs != [] {
      var init := cs[..|cs| - 1];
      WorstAvailableIsMin(init);
      assert forall k | 0 <= k < |init| :: init[k] == cs[k];
      if WorstAvailable(init) != SizeMax && WorstAvailable(init) <= Available(cs[|cs| - 1]) {
        var k :| 0 <= k < |init| && WorstAvailable(init) == Available(init[k]);
        assert WorstAvailable(cs) == Available(cs[k]);
      } else if WorstAvailable(cs) != SizeMax {
        assert WorstAvailable(cs) == Available(cs[|cs| - 1]);
      }
    }
  }

  /** On a non-empty list, worst never exceeds best. */
  lemma WorstAtMostBest(cs: seq<Chunk>)
    requires InBounds(cs) && cs != []
    ensures WorstAvailable(cs) <= BestAvailable(cs)
  {
    BestAvailableIsMax(cs);
    WorstAvailableIsMin(cs);
  }

  /** After a clear, the best available figure is the largest chunk
      capacity. */
  lemma BestAvailableAfterReset(cs: seq<Chunk>)
    requires cs != []
    ensures InBounds(ResetAll(cs))
    ensures forall k | 0 <= k < |cs| :: cs[k].capacity <= BestAvailable(ResetAll(cs))
    ensures exists k | 0 <= k < |cs| :: BestAvailable(ResetAll(cs)) == cs[k].capacity
  {
    var r := ResetAll(cs);
    BestAvailableIsMax(r);
    var k :| 0 <= k < |r| && BestAvailable(r) == Available(r[k]);
    assert BestAvailable(r) == cs[k].capacity;
  }
}
