/** The arena (`struct Arena` of arena.c) as a value: its chunk list and its
    four counters, the invariant that ties them together, one function per
    operation giving the state it leaves, and the lemmas stating what each
    operation promises. The class in arena.dfy is proved against these. */
module ArenaStates {
  import opened Align
  import opened Options
  import opened Chunks

  /** `head` (as the list it starts, head first) and the counters
      `capacity`, `chunks`, `size` and `slop`. */
  datatype ArenaState = ArenaState(chunkList: seq<Chunk>, capacity: nat, chunks: nat, size: nat, slop: nat)

  /** The arena's invariant: a head chunk exists, every chunk is well formed,
      `capacity` and `chunks` describe the list, and the data and padding
      bytes together are the chunks' high-water marks. */
  predicate Inv(cfg: Config, s: ArenaState) {
    && ValidConfig(cfg)
    && |s.chunkList| >= 1
    && (forall k | 0 <= k < |s.chunkList| :: ChunkOk(cfg, s.chunkList[k]))
    && s.capacity == SumCapacity(s.chunkList)
    && s.chunks == |s.chunkList|
    && s.size + s.slop == SumSize(s.chunkList)
  }

  /** The state `Arena_withCapacity` builds around its first chunk. */
  function Initial(head: Chunk): ArenaState {
    ArenaState([head], head.capacity, 1, 0, 0)
  }

  /** The allocator's promise for the chunk of a request of `hint` bytes. */
  predicate AllocOk(cfg: Config, hint: nat, alloc: Option<Block>)
    requires ValidConfig(cfg)
  {
    alloc.Some? ==> BlockFor(alloc.value, cfg.maxAlign, ChunkCapacity(cfg, hint))
  }

  /** `Arena_withCapacity`: `headerAllocated` is the outcome of the header
      allocation, `alloc` that of the chunk's; on either failure, `None`. */
  function Created(cfg: Config, hint: nat, headerAllocated: bool, alloc: Option<Block>): Option<ArenaState>
    requires ValidConfig(cfg) && AllocOk(cfg, hint, alloc)
  {
    if !headerAllocated then None
    else
      match ChunkNew(cfg, hint, alloc)
      case None => None
      case Some(c) => Some(Initial(c))
  }

  /** A new arena has one empty chunk of at least the hinted (and at least the
      default) capacity, and its counters agree with it. */
  lemma CreatedProps(cfg: Config, hint: nat, headerAllocated: bool, alloc: Option<Block>)
    requires ValidConfig(cfg) && AllocOk(cfg, hint, alloc)
    ensures Created(cfg, hint, headerAllocated, alloc).IsSome() <==> headerAllocated && alloc.IsSome()
    ensures Created(cfg, hint, headerAllocated, alloc).Some? ==>
              var s := Created(cfg, hint, headerAllocated, alloc).value;
              && Inv(cfg, s)
              && s.chunks == 1 && s.size == 0 && s.slop == 0
              && s.chunkList[0].size == 0
              && s.capacity == s.chunkList[0].capacity == ChunkCapacity(cfg, hint)
              && s.capacity >= hint && s.capacity >= cfg.defaultChunkCapacity
  {
    if headerAllocated && alloc.Some? {
      var c := ChunkNew(cfg, hint, alloc).value;
      assert [c][1..] == [];
    }
  }

  /** The preconditions `Arena_requestWithAlignment` asserts (alignment a
      power of two, size positive and a multiple of it), that the alignment
      divides `maxAlign` (which the source does not check), and the
      allocator's promise. */
  predicate RequestOk(cfg: Config, s: ArenaState, alignment: nat, size: nat, alloc: Option<Block>) {
    && Inv(cfg, s)
    && alignment > 0 && IsPowerOfTwo(alignment) && cfg.maxAlign % alignment == 0
    && size > 0 && size % alignment == 0
    && AllocOk(cfg, size, alloc)
  }

  /** The address a hit in chunk `c` returns: its end of data, padded. */
  function HitAddress(c: Chunk, alignment: nat): Pointer
    requires alignment > 0
  {
    c.base + c.size + Padding(c, alignment)
  }

  /** The state after a hit in chunk `i`: that chunk's mark moves past the
      padding and the block, `size` grows by the block, `slop` by the
      padding. */
  function Hit(s: ArenaState, i: nat, alignment: nat, size: nat): ArenaState
    requires i < |s.chunkList| && alignment > 0
  {
    var c := s.chunkList[i];
    var pad := Padding(c, alignment);
    s.(chunkList := s.chunkList[i := c.(size := c.size + pad + size)],
       size := s.size + size,
       slop := s.slop + pad)
  }

  /** The state after a miss: chunk `c`, holding the block at offset 0,
      becomes the head. */
  function Miss(s: ArenaState, c: Chunk, size: nat): ArenaState {
    ArenaState([c.(size := c.size + size)] + s.chunkList,
               s.capacity + c.capacity, s.chunks + 1, s.size + size, s.slop)
  }

  /** `Arena_requestWithAlignment`: the new state and the returned address.
      First fit over the list; on a miss a new chunk sized for the request;
      `None`, with nothing changed, when that chunk cannot be allocated. */
  function Requested(cfg: Config, s: ArenaState, alignment: nat, size: nat, alloc: Option<Block>): (ArenaState, Option<Pointer>)
    requires ValidConfig(cfg) && alignment > 0 && AllocOk(cfg, size, alloc)
  {
    match FirstFit(s.chunkList, alignment, size)
    case Some(i) => (Hit(s, i, alignment, size), Some(HitAddress(s.chunkList[i], alignment)))
    case None =>
      match ChunkNew(cfg, size, alloc)
      case None => (s, None)
      case Some(c) => (Miss(s, c, size), Some(c.base))
  }

  /** A request preserves the invariant. */
  lemma RequestedPreservesInv(cfg: Config, s: ArenaState, alignment: nat, size: nat, alloc: Option<Block>)
    requires RequestOk(cfg, s, alignment, size, alloc)
    ensures Inv(cfg, Requested(cfg, s, alignment, size, alloc).0)
  {
    match FirstFit(s.chunkList, alignment, size)
    case Some(i) =>
      HitPreservesInv(cfg, s, i, alignment, size);
    case None =>
      match ChunkNew(cfg, size, alloc)
      case None =>
      case Some(c) =>
        MissPreservesInv(cfg, s, c, size);
  }

  lemma HitPreservesInv(cfg: Config, s: ArenaState, i: nat, alignment: nat, size: nat)
    requires Inv(cfg, s) && alignment > 0
    requires i < |s.chunkList| && Fits(s.chunkList[i], alignment, size)
    ensures Inv(cfg, Hit(s, i, alignment, size))
  {
    var cs := s.chunkList;
    var c' := cs[i].(size := cs[i].size + Padding(cs[i], alignment) + size);
    SumSizeUpdate(cs, i, c');
    SumCapacityUpdate(cs, i, c');
    var cs' := cs[i := c'];
    assert forall k | 0 <= k < |cs'| :: ChunkOk(cfg, cs'[k]);
  }

  lemma MissPreservesInv(cfg: Config, s: ArenaState, c: Chunk, size: nat)
    requires Inv(cfg, s) && ChunkOk(cfg, c) && c.size == 0 && size <= c.capacity
    ensures Inv(cfg, Miss(s, c, size))
  {
    var cs := s.chunkList;
    var c' := c.(size := c.size + size);
    var cs' := [c'] + cs;
    assert cs'[0] == c' && cs'[1..] == cs;
    assert SumCapacity(cs') == c'.capacity + SumCapacity(cs);
    assert SumSize(cs') == c'.size + SumSize(cs);
    assert forall k | 0 <= k < |cs'| :: ChunkOk(cfg, cs'[k]) by {
      forall k | 0 <= k < |cs'| ensures ChunkOk(cfg, cs'[k]) {
        if k > 0 {
          assert cs'[k] == cs[k - 1];
        }
      }
    }
  }

  /** A request fails exactly when no chunk has room and the new chunk cannot
      be allocated; a failed request changes nothing. */
  lemma RequestedFailure(cfg: Config, s: ArenaState, alignment: nat, size: nat, alloc: Option<Block>)
    requires RequestOk(cfg, s, alignment, size, alloc)
    ensures Requested(cfg, s, alignment, size, alloc).1.IsNone() <==>
              (FirstFit(s.chunkList, alignment, size).IsNone() && alloc.IsNone())
    ensures Requested(cfg, s, alignment, size, alloc).1.IsNone() ==>
              Requested(cfg, s, alignment, size, alloc).0 == s
  {
  }

  /** The hit path: the block comes from the first chunk with room, is
      aligned, starts at or after that chunk's high-water mark and ends within
      its capacity; `size` grows by the request and `slop` by the padding,
      and nothing else changes. */
  lemma RequestedHit(cfg: Config, s: ArenaState, alignment: nat, size: nat, alloc: Option<Block>, i: nat)
    requires RequestOk(cfg, s, alignment, size, alloc)
    requires FirstFit(s.chunkList, alignment, size) == Some(i)
    ensures i < |s.chunkList|
    ensures forall j | 0 <= j < i :: !Fits(s.chunkList[j], alignment, size)
    ensures var (s', r) := Requested(cfg, s, alignment, size, alloc);
            var c := s.chunkList[i];
            && r.Some?
            && r.value % alignment == 0
            && c.base + c.size <= r.value
            && r.value + size <= c.base + c.capacity
            && Padding(c, alignment) == AlignPadding(c.size, alignment)
            && |s'.chunkList| == |s.chunkList|
            && s'.chunkList[i] == c.(size := c.size + Padding(c, alignment) + size)
            && (forall j | 0 <= j < |s.chunkList| && j != i :: s'.chunkList[j] == s.chunkList[j])
            && s'.size == s.size + size
            && s'.slop == s.slop + Padding(c, alignment)
            && s'.chunks == s.chunks
            && s'.capacity == s.capacity
  {
    var c := s.chunkList[i];
    assert ChunkOk(cfg, c);
    DividesTransitive(alignment, cfg.maxAlign, c.base);
    AlignPaddingFromBase(c.base, c.size, alignment);
  }

  /** The miss path: the new chunk becomes the head with the block at offset
      0, which is aligned because the chunk's storage is; `chunks` grows by
      1, `capacity` by the new chunk's capacity, `size` by the request, and
      `slop` does not change. */
  lemma RequestedMiss(cfg: Config, s: ArenaState, alignment: nat, size: nat, alloc: Option<Block>)
    requires RequestOk(cfg, s, alignment, size, alloc)
    requires FirstFit(s.chunkList, alignment, size).None? && alloc.Some?
    ensures var (s', r) := Requested(cfg, s, alignment, size, alloc);
            && |s'.chunkList| == |s.chunkList| + 1
            && s'.chunkList[1..] == s.chunkList
            && var head := s'.chunkList[0];
            && r == Some(head.base)
            && head.base % alignment == 0
            && head.base == StorageIntended(cfg, alloc.value.address)
            && head.size == size
            && head.capacity == ChunkCapacity(cfg, size)
            && s'.chunks == s.chunks + 1
            && s'.capacity == s.capacity + head.capacity
            && s'.size == s.size + size
            && s'.slop == s.slop
  {
    var c := ChunkNew(cfg, size, alloc).value;
    DividesTransitive(alignment, cfg.maxAlign, c.base);
    var s' := Requested(cfg, s, alignment, size, alloc).0;
    assert s'.chunkList == [c.(size := size)] + s.chunkList;
  }

  /** Every address a request returns is a multiple of the alignment. */
  lemma RequestedAligned(cfg: Config, s: ArenaState, alignment: nat, size: nat, alloc: Option<Block>)
    requires RequestOk(cfg, s, alignment, size, alloc)
    requires Requested(cfg, s, alignment, size, alloc).1.Some?
    ensures Requested(cfg, s, alignment, size, alloc).1.value % alignment == 0
  {
    match FirstFit(s.chunkList, alignment, size)
    case Some(i) =>
    case None =>
      RequestedMiss(cfg, s, alignment, size, alloc);
  }

  /** `Arena_request(n)` asks for `roundToAlignBoundary(maxAlign, n)` bytes
      at `maxAlign`, which meets every precondition of the aligned form. */
  lemma DefaultRequestOk(cfg: Config, s: ArenaState, n: nat, alloc: Option<Block>)
    requires Inv(cfg, s) && n > 0
    requires AllocOk(cfg, RoundToAlignBoundary(cfg.maxAlign, n), alloc)
    ensures RequestOk(cfg, s, cfg.maxAlign, RoundToAlignBoundary(cfg.maxAlign, n), alloc)
  {
    MultipleMod(1, cfg.maxAlign);
  }

  /** The state `Arena_clear` leaves: every chunk reset, no data, no slop. */
  function Cleared(s: ArenaState): ArenaState {
    s.(chunkList := ResetAll(s.chunkList), size := 0, slop := 0)
  }

  /** After a clear every chunk is empty with all its bytes zero, `size` and
      `slop` are 0, and `chunks` and `capacity` (and each chunk's capacity and
      storage address) are unchanged; the invariant still holds. */
  lemma ClearedProps(cfg: Config, s: ArenaState)
    requires Inv(cfg, s)
    ensures Inv(cfg, Cleared(s))
    ensures var s' := Cleared(s);
            && |s'.chunkList| == |s.chunkList|
            && s'.size == 0 && s'.slop == 0
            && s'.chunks == s.chunks && s'.capacity == s.capacity
            && forall k | 0 <= k < |s.chunkList| ::
                 && s'.chunkList[k].size == 0
                 && s'.chunkList[k].capacity == s.chunkList[k].capacity
                 && s'.chunkList[k].base == s.chunkList[k].base
                 && forall b | 0 <= b < |s'.chunkList[k].memory| :: s'.chunkList[k].memory[b] == 0
  {
    ResetAllSums(s.chunkList);
  }

  /** The state `Arena_shrink` is meant to leave (arena.h: it deallocates the
      chunks not in use): the head stays, every other chunk with no data is
      dropped, and `chunks` and `capacity` lose what was dropped. */
  function Shrunk(cfg: Config, s: ArenaState): ArenaState
    requires Inv(cfg, s)
  {
    var t := s.chunkList[1..];
    Partition(t);
    s.(chunkList := [s.chunkList[0]] + NonEmpty(t),
       chunks := s.chunks - |EmptyOnes(t)|,
       capacity := s.capacity - SumCapacity(EmptyOnes(t)))
  }

  /** Shrinking keeps the head and the invariant, leaves no empty chunk after
      the head, drops only empty chunks (every chunk with data stays, in
      order), and lowers `chunks` and `capacity` by exactly what it drops. */
  lemma ShrunkProps(cfg: Config, s: ArenaState)
    requires Inv(cfg, s)
    ensures var s' := Shrunk(cfg, s);
            var t := s.chunkList[1..];
            && Inv(cfg, s')
            && s'.chunkList[0] == s.chunkList[0]
            && (forall k | 1 <= k < |s'.chunkList| :: s'.chunkList[k].size != 0)
            && (forall k | 1 <= k < |s.chunkList| && s.chunkList[k].size != 0 :: s.chunkList[k] in s'.chunkList)
            && (forall k | 0 <= k < |s'.chunkList| :: s'.chunkList[k] in s.chunkList)
            && s'.chunkList[1..] == NonEmpty(t)
            && s'.chunks == s.chunks - |EmptyOnes(t)|
            && s'.capacity == s.capacity - SumCapacity(EmptyOnes(t))
            && s'.size == s.size && s'.slop == s.slop
  {
    var cs := s.chunkList;
    var t := cs[1..];
    var cs' := [cs[0]] + NonEmpty(t);
    Partition(t);
    NonEmptyIsSublist(t);
    NonEmptyKeepsData(t);
    assert cs'[0] == cs[0] && cs'[1..] == NonEmpty(t);
    SumsOfConcat([cs[0]], NonEmpty(t));
    assert [cs[0]][1..] == [];
    forall k | 1 <= k < |cs| && cs[k].size != 0 ensures cs[k] in cs' {
      assert cs[k] == t[k - 1];
    }
    forall k | 0 <= k < |cs'| ensures cs'[k] in cs && ChunkOk(cfg, cs'[k]) {
      if k > 0 {
        assert cs'[k] == NonEmpty(t)[k - 1];
        assert cs'[k] in t;
      }
    }
  }

  /** What a scan of the chunks after the head that keeps the non-empty ones
      and counts the empty ones away leaves is the shrunk state. */
  lemma ShrunkFromScan(cfg: Config, s: ArenaState, kept: seq<Chunk>, remaining: nat, capacityLeft: nat)
    requires Inv(cfg, s)
    requires kept == NonEmpty(s.chunkList[1..])
    requires remaining + |EmptyOnes(s.chunkList[1..])| == |s.chunkList|
    requires capacityLeft + SumCapacity(EmptyOnes(s.chunkList[1..])) == SumCapacity(s.chunkList)
    ensures Shrunk(cfg, s) == s.(chunkList := [s.chunkList[0]] + kept, chunks := remaining, capacity := capacityLeft)
    ensures Inv(cfg, Shrunk(cfg, s))
  {
    ShrunkProps(cfg, s);
  }

  /** A second shrink changes nothing. */
  lemma ShrunkIdempotent(cfg: Config, s: ArenaState)
    requires Inv(cfg, s)
    ensures Inv(cfg, Shrunk(cfg, s))
    ensures Shrunk(cfg, Shrunk(cfg, s)) == Shrunk(cfg, s)
  {
    ShrunkProps(cfg, s);
    var s1 := Shrunk(cfg, s);
    NonEmptyIdempotent(s.chunkList[1..]);
    assert s1.chunkList[1..] == NonEmpty(s.chunkList[1..]);
  }

  /** A clear followed by a shrink leaves the head chunk alone. */
  lemma ClearThenShrink(cfg: Config, s: ArenaState)
    requires Inv(cfg, s)
    ensures Inv(cfg, Cleared(s))
    ensures Shrunk(cfg, Cleared(s)).chunkList == [ResetChunk(s.chunkList[0])]
    ensures Shrunk(cfg, Cleared(s)).chunks == 1
  {
    ClearedProps(cfg, s);
    var t := Cleared(s).chunkList[1..];
    assert forall k | 0 <= k < |t| :: t[k].size == 0;
    NoDataFiltersOut(t);
    ShrunkIdempotent(cfg, Cleared(s));
    ShrunkProps(cfg, Cleared(s));
  }

  lemma {:induction false} NoDataFiltersOut(cs: seq<Chunk>)
    requires forall k | 0 <= k < |cs| :: cs[k].size == 0
    ensures NonEmpty(cs) == []
  {
    if cs != [] {
      NoDataFiltersOut(cs[1..]);
    }
  }

  /** Index of the first chunk with no data. */
  function FirstEmpty(cs: seq<Chunk>): (r: Option<nat>)
    ensures r.Some? ==> && r.value < |cs| && cs[r.value].size == 0
                        && forall j | 0 <= j < r.value :: cs[j].size != 0
    ensures r.None? ==> forall j | 0 <= j < |cs| :: cs[j].size != 0
  {
    if cs == [] then None
    else if cs[0].size == 0 then Some(0)
    else
      match FirstEmpty(cs[1..])
      case None => None
      case Some(i) => Some(i + 1)
  }

  /** The loop of `Arena_shrink` AS WRITTEN, on the chunks after the head.
      The cursor walks from `head->next`; at the first empty chunk it sets
      `head->next = chunk->next`, which unlinks that chunk together with every
      chunk between it and the head, subtracts only the empty chunk from the
      counters, and restarts from the head. Returns the remaining list after
      the head and the amounts subtracted from `chunks` and `capacity`. */
  function LiteralShrinkTail(t: seq<Chunk>): (r: (seq<Chunk>, nat, nat))
    ensures r.1 == |EmptyOnes(t)| && r.2 == SumCapacity(EmptyOnes(t))
    decreases |t|
  {
    match FirstEmpty(t)
    case None =>
      AllDataNoEmpty(t);
      (t, 0, 0)
    case Some(j) =>
      var rest := LiteralShrinkTail(t[j + 1..]);
      EmptyOnesSplit(t, j);
      (rest.0, rest.1 + 1, rest.2 + t[j].capacity)
  }

  lemma {:induction false} AllDataNoEmpty(cs: seq<Chunk>)
    requires forall k | 0 <= k < |cs| :: cs[k].size != 0
    ensures EmptyOnes(cs) == []
  {
    if cs != [] {
      AllDataNoEmpty(cs[1..]);
    }
  }

  lemma {:induction false} EmptyOnesSplit(cs: seq<Chunk>, j: nat)
    requires j < |cs| && cs[j].size == 0
    requires forall k | 0 <= k < j :: cs[k].size != 0
    ensures EmptyOnes(cs) == [cs[j]] + EmptyOnes(cs[j + 1..])
    ensures SumCapacity(EmptyOnes(cs)) == cs[j].capacity + SumCapacity(EmptyOnes(cs[j + 1..]))
  {
    if j == 0 {
      assert cs[1..] == cs[j + 1..];
    } else {
      EmptyOnesSplit(cs[1..], j - 1);
      assert cs[1..][j..] == cs[j + 1..];
    }
    var e := [cs[j]] + EmptyOnes(cs[j + 1..]);
    assert e[0] == cs[j] && e[1..] == EmptyOnes(cs[j + 1..]);
  }

  /** `Arena_shrink` as written, on the whole arena. */
  function LiteralShrink(cfg: Config, s: ArenaState): ArenaState
    requires Inv(cfg, s)
  {
    var t := s.chunkList[1..];
    var r := LiteralShrinkTail(t);
    Partition(t);
    s.(chunkList := [s.chunkList[0]] + r.0,
       chunks := s.chunks - r.1,
       capacity := s.capacity - r.2)
  }

  /** The literal loop subtracts from the counters exactly what the intended
      shrink does, whatever it unlinks. */
  lemma LiteralShrinkCounters(cfg: Config, s: ArenaState)
    requires Inv(cfg, s)
    ensures LiteralShrink(cfg, s).chunks == Shrunk(cfg, s).chunks
    ensures LiteralShrink(cfg, s).capacity == Shrunk(cfg, s).capacity
  {
  }

  lemma Sums1(a: Chunk)
    ensures SumCapacity([a]) == a.capacity && SumSize([a]) == a.size
  {
    assert [a][1..] == [];
  }

  lemma Sums3(a: Chunk, b: Chunk, c: Chunk)
    ensures SumCapacity([a, b, c]) == a.capacity + b.capacity + c.capacity
    ensures SumSize([a, b, c]) == a.size + b.size + c.size
  {
    assert [a, b, c][1..] == [b, c];
    assert [b, c][1..] == [c];
    Sums1(c);
  }

  /** Three full chunks, cleared: a request of 96 bytes at 16 does not fit
      the 64-byte head and lands at the start of the second chunk. */
  lemma ClearThenHitSecond(m1: seq<byte>, m2: seq<byte>, m3: seq<byte>)
    requires |m1| == 64 && |m2| == 128 && |m3| == 64
    ensures var cfg := Config(16, 64, 24);
            var s0 := ArenaState([Chunk(64, 64, 64, m1), Chunk(256, 128, 128, m2), Chunk(512, 64, 64, m3)],
                                 256, 3, 256, 0);
            && Inv(cfg, s0)
            && Requested(cfg, Cleared(s0), 16, 96, None) ==
               (ArenaState([Chunk(64, 0, 64, Zeros(64)), Chunk(256, 96, 128, Zeros(128)), Chunk(512, 0, 64, Zeros(64))],
                           256, 3, 96, 0),
                Some(256))
  {
    var cfg := Config(16, 64, 24);
    var h, a, b := Chunk(64, 64, 64, m1), Chunk(256, 128, 128, m2), Chunk(512, 64, 64, m3);
    Sums3(h, a, b);
    var s0 := ArenaState([h, a, b], 256, 3, 256, 0);
    assert Inv(cfg, s0);
    ClearedThree(h, a, b);
    HitSecond();
  }

  lemma ClearedThree(h: Chunk, a: Chunk, b: Chunk)
    ensures Cleared(ArenaState([h, a, b], 256, 3, 256, 0)) ==
            ArenaState([ResetChunk(h), ResetChunk(a), ResetChunk(b)], 256, 3, 0, 0)
  {
  }

  lemma HitSecond()
    ensures var h0, a0, b0 := Chunk(64, 0, 64, Zeros(64)), Chunk(256, 0, 128, Zeros(128)), Chunk(512, 0, 64, Zeros(64));
            Requested(Config(16, 64, 24), ArenaState([h0, a0, b0], 256, 3, 0, 0), 16, 96, None) ==
            (ArenaState([h0, a0.(size := 96), b0], 256, 3, 96, 0), Some(256))
  {
    var h0, a0, b0 := Chunk(64, 0, 64, Zeros(64)), Chunk(256, 0, 128, Zeros(128)), Chunk(512, 0, 64, Zeros(64));
    assert Padding(h0, 16) == 0 && Padding(a0, 16) == 0;
    FirstFitIsFirst([h0, a0, b0], 16, 96, 1);
    assert [h0, a0, b0][1 := a0.(size := 96)] == [h0, a0.(size := 96), b0];
    assert HitAddress(a0, 16) == 256;
  }

  /** A reachable arena on which the literal `Arena_shrink` breaks the
      invariant (reached by `ClearThenHitSecond`): the shrink unlinks the
      second chunk, which holds the block just returned, along with the empty
      third one, while the counters drop only the third. The intended shrink
      keeps it. */
  lemma LiteralShrinkBreaksInvariant()
    ensures var cfg := Config(16, 64, 24);
            var s := ArenaState([Chunk(64, 0, 64, Zeros(64)), Chunk(256, 96, 128, Zeros(128)), Chunk(512, 0, 64, Zeros(64))],
                                256, 3, 96, 0);
            && Inv(cfg, s)
            && var bad := LiteralShrink(cfg, s);
            && bad.chunkList == [s.chunkList[0]]
            && bad.chunks == 2 && bad.capacity == 192
            && !Inv(cfg, bad)
            && Shrunk(cfg, s).chunkList == s.chunkList[..2]
  {
    var cfg := Config(16, 64, 24);
    var h0, a1, b0 := Chunk(64, 0, 64, Zeros(64)), Chunk(256, 96, 128, Zeros(128)), Chunk(512, 0, 64, Zeros(64));
    var s := ArenaState([h0, a1, b0], 256, 3, 96, 0);
    Sums3(h0, a1, b0);
    assert Inv(cfg, s);
    assert s.chunkList[1..] == [a1, b0];
    LiteralTailDropsBoth(a1, b0);
    Sums1(b0);
    Sums1(h0);
    ShrunkProps(cfg, s);
  }

  /** The literal loop on a non-empty chunk followed by an empty one unlinks
      both, though only the second is empty. */
  lemma LiteralTailDropsBoth(a: Chunk, b: Chunk)
    requires a.size != 0 && b.size == 0
    ensures LiteralShrinkTail([a, b]).0 == []
    ensures EmptyOnes([a, b]) == [b] && NonEmpty([a, b]) == [a]
  {
    var t := [a, b];
    assert t[1..] == [b] && [b][1..] == [];
    assert FirstEmpty(t) == Some(1);
    assert t[2..] == [];
    assert FirstEmpty([]) == None;
    assert LiteralShrinkTail([]).0 == [];
  }

  /** The alignment bound that `Arena_requestWithAlignment` does not check:
      with an alignment of twice `maxAlign`, the miss path returns the new
      chunk's storage address, which need not be a multiple of it (the
      source's own assertion there fails). */
  lemma MissBeyondMaxAlign(m1: seq<byte>, m2: seq<byte>)
    requires |m1| == 64 && |m2| == 64
    ensures var cfg := Config(16, 64, 24);
            var s := ArenaState([Chunk(32, 64, 64, m1)], 64, 1, 64, 0);
            var alloc := Some(Block(16, m2));
            && Inv(cfg, s) && IsPowerOfTwo(32) && AllocOk(cfg, 32, alloc)
            && Requested(cfg, s, 32, 32, alloc).1 == Some(48)
            && 48 % 32 != 0
  {
    var cfg := Config(16, 64, 24);
    var c := Chunk(32, 64, 64, m1);
    Sums1(c);
    assert !Fits(c, 32, 32);
    assert FirstFit([c], 32, 32) == None by {
      assert [c][1..] == [];
    }
    assert ChunkCapacity(cfg, 32) == 64;
    assert StorageIntended(cfg, 16) == 48;
  }

  /** Two requests in a row: an arena with a capacity hint of 64 serves 40
      bytes at alignment 8 from its one chunk; 40 more do not fit, so a
      second chunk is created and becomes the head. */
  lemma ScenarioTwoChunks(m1: seq<byte>, m2: seq<byte>)
    requires |m1| == 64 && |m2| == 64
    ensures var cfg := Config(16, 64, 24);
            && AllocOk(cfg, 64, Some(Block(4096, m1)))
            && var s0 := Created(cfg, 64, true, Some(Block(4096, m1)));
            && s0.Some?
            && var (s1, p1) := Requested(cfg, s0.value, 8, 40, None);
            && p1 == Some(4128) && s1.size == 40 && s1.chunks == 1
            && AllocOk(cfg, 40, Some(Block(8192, m2)))
            && var (s2, p2) := Requested(cfg, s1, 8, 40, Some(Block(8192, m2)));
            && p2 == Some(8224) && s2.size == 80 && s2.chunks == 2
            && Inv(cfg, s2)
  {
    ScenarioFirstRequest(m1);
    ScenarioSecondRequest(m1, m2);
  }

  /** The first request of the scenario is served by the first chunk. */
  lemma ScenarioFirstRequest(m1: seq<byte>)
    requires |m1| == 64
    ensures var cfg := Config(16, 64, 24);
            && AllocOk(cfg, 64, Some(Block(4096, m1)))
            && Created(cfg, 64, true, Some(Block(4096, m1))) == Some(Initial(Chunk(4128, 0, 64, m1)))
            && Requested(cfg, Initial(Chunk(4128, 0, 64, m1)), 8, 40, None) ==
               (ArenaState([Chunk(4128, 40, 64, m1)], 64, 1, 40, 0), Some(4128))
  {
    var cfg := Config(16, 64, 24);
    assert ChunkCapacity(cfg, 64) == 64;
    assert StorageIntended(cfg, 4096) == 4128;
    var c0 := Chunk(4128, 0, 64, m1);
    assert Padding(c0, 8) == 0;
    FirstFitIsFirst([c0], 8, 40, 0);
    assert [c0][0 := c0.(size := 40)] == [Chunk(4128, 40, 64, m1)];
  }

  /** The second request of the scenario misses and creates a new head. */
  lemma ScenarioSecondRequest(m1: seq<byte>, m2: seq<byte>)
    requires |m1| == 64 && |m2| == 64
    ensures var cfg := Config(16, 64, 24);
            var s1 := ArenaState([Chunk(4128, 40, 64, m1)], 64, 1, 40, 0);
            && Inv(cfg, s1)
            && AllocOk(cfg, 40, Some(Block(8192, m2)))
            && Requested(cfg, s1, 8, 40, Some(Block(8192, m2))) ==
               (ArenaState([Chunk(8224, 40, 64, m2), Chunk(4128, 40, 64, m1)], 128, 2, 80, 0), Some(8224))
            && Inv(cfg, Requested(cfg, s1, 8, 40, Some(Block(8192, m2))).0)
  {
    var cfg := Config(16, 64, 24);
    assert ChunkCapacity(cfg, 40) == 64;
    assert StorageIntended(cfg, 8192) == 8224;
    var c1 := Chunk(4128, 40, 64, m1);
    var s1 := ArenaState([c1], 64, 1, 40, 0);
    Sums1(c1);
    assert Inv(cfg, s1);
    assert !Fits(c1, 8, 40) by {
      assert Padding(c1, 8) == 0;
    }
    FirstFitNone([c1], 8, 40);
    var c := Chunk(8224, 0, 64, m2);
    assert ChunkNew(cfg, 40, Some(Block(8192, m2))) == Some(c);
    assert [c.(size := 40)] + [c1] == [Chunk(8224, 40, 64, m2), c1];
    RequestedPreservesInv(cfg, s1, 8, 40, Some(Block(8192, m2)));
  }
}
