/** `struct Arena` and its operations (arena.c) as a class updated in place.
    The linked list from `head` is the sequence `chunkList`, head first; each
    method is proved against the transition it corresponds to in
    ArenaStates. The outcome of every allocation the source makes is a
    parameter (`alloc`, `headerAllocated`). */
module Arenas {
  import opened Align
  import opened Options
  import opened Chunks
  import opened ArenaStates

  class Arena {
    /** `maxAlign`, the default chunk capacity of the build and the chunk
        header size. */
    const cfg: Config
    var chunkList: seq<Chunk>
    var capacity: nat
    var chunks: nat
    var size: nat
    var slop: nat

    /** The fields as a value. */
    function State(): ArenaState
      reads this
    {
      ArenaState(chunkList, capacity, chunks, size, slop)
    }

    predicate Valid()
      reads this
    {
      Inv(cfg, State())
    }

    /** The field initialisation of `Arena_withCapacity` around its first
        chunk. */
    constructor Init(cfg: Config, head: Chunk)
      requires ValidConfig(cfg) && ChunkOk(cfg, head) && head.size == 0
      ensures this.cfg == cfg && State() == Initial(head)
      ensures Valid()
    {
      this.cfg := cfg;
      chunkList := [head];
      capacity := head.capacity;
      chunks := 1;
      size := 0;
      slop := 0;
      new;
      Sums1(head);
    }

    /** `Arena_withCapacity`: allocate the header, then the first chunk; if
        the chunk cannot be allocated the header is freed and `None`
        returned. */
    static method WithCapacity(cfg: Config, capacityHint: nat, headerAllocated: bool, alloc: Option<Block>)
      returns (r: Option<Arena>)
      requires ValidConfig(cfg) && AllocOk(cfg, capacityHint, alloc)
      ensures r.IsSome() <==> headerAllocated && alloc.IsSome()
      ensures r.Some? ==> && fresh(r.value) && r.value.cfg == cfg && r.value.Valid()
                          && Created(cfg, capacityHint, headerAllocated, alloc) == Some(r.value.State())
    {
      if headerAllocated {
        var option := ChunkNew(cfg, capacityHint, alloc);
        if option.IsSome() {
          var a := new Arena.Init(cfg, option.Unwrap());
          r := Some(a);
          return;
        }
      }
      r := None;
    }

    /** `Arena_new`: `Arena_withCapacity` with the default capacity. */
    static method New(cfg: Config, headerAllocated: bool, alloc: Option<Block>) returns (r: Option<Arena>)
      requires ValidConfig(cfg) && AllocOk(cfg, cfg.defaultChunkCapacity, alloc)
      ensures r.IsSome() <==> headerAllocated && alloc.IsSome()
      ensures r.Some? ==> && fresh(r.value) && r.value.cfg == cfg && r.value.Valid()
                          && Created(cfg, cfg.defaultChunkCapacity, headerAllocated, alloc) == Some(r.value.State())
    {
      r := WithCapacity(cfg, cfg.defaultChunkCapacity, headerAllocated, alloc);
    }

    /** The form arena.h declares for `Arena_withCapacity`: it terminates
        instead of returning `None`, so here both allocations must succeed. */
    static method WithCapacityOrAbort(cfg: Config, capacityHint: nat, alloc: Option<Block>) returns (a: Arena)
      requires ValidConfig(cfg) && AllocOk(cfg, capacityHint, alloc) && alloc.Some?
      ensures fresh(a) && a.cfg == cfg && a.Valid()
      ensures Created(cfg, capacityHint, true, alloc) == Some(a.State())
    {
      var r := WithCapacity(cfg, capacityHint, true, alloc);
      a := r.Unwrap();
    }

    /** The form arena.h declares for `Arena_new`. */
    static method NewOrAbort(cfg: Config, alloc: Option<Block>) returns (a: Arena)
      requires ValidConfig(cfg) && AllocOk(cfg, cfg.defaultChunkCapacity, alloc) && alloc.Some?
      ensures fresh(a) && a.cfg == cfg && a.Valid()
      ensures Created(cfg, cfg.defaultChunkCapacity, true, alloc) == Some(a.State())
    {
      a := WithCapacityOrAbort(cfg, cfg.defaultChunkCapacity, alloc);
    }

    /** `Arena_requestWithAlignment`: first fit from the head; on a miss a
        new head chunk sized for the request, allocated with outcome
        `alloc`. */
    method RequestWithAlignment(alignment: nat, size: nat, alloc: Option<Block>) returns (r: Option<Pointer>)
      requires RequestOk(cfg, State(), alignment, size, alloc)
      modifies this
      ensures State() == Requested(cfg, old(State()), alignment, size, alloc).0
      ensures r == Requested(cfg, old(State()), alignment, size, alloc).1
      ensures Valid()
    {
      ghost var s0 := State();
      var found := FindFit(alignment, size);
      if found.IsSome() {
        var memory := BumpChunk(found.Unwrap(), alignment, size);
        r := Some(memory);
      } else {
        var option := ChunkNew(cfg, size, alloc);
        if option.IsSome() {
          var memory := PushChunk(option.Unwrap(), size);
          r := Some(memory);
        } else {
          r := None;
        }
      }
      RequestedPreservesInv(cfg, s0, alignment, size, alloc);
    }

    /** The first-fit scan of `Arena_requestWithAlignment`, head to tail:
        the index of the first chunk with room for the padded block. */
    method FindFit(alignment: nat, size: nat) returns (found: Option<nat>)
      requires alignment > 0
      ensures found == FirstFit(chunkList, alignment, size)
    {
      var i := 0;
      while i < |chunkList|
        invariant 0 <= i <= |chunkList|
        invariant forall j | 0 <= j < i :: !Fits(chunkList[j], alignment, size)
      {
        var chunk := chunkList[i];
        var pad := AlignPadding(chunk.base + chunk.size, alignment);
        if chunk.size + pad + size <= chunk.capacity {
          FirstFitIsFirst(chunkList, alignment, size, i);
          return Some(i);
        }
        i := i + 1;
      }
      FirstFitNone(chunkList, alignment, size);
      return None;
    }

    /** The hit path of `Arena_requestWithAlignment`: chunk `i`'s mark moves
        past the padding and the block, whose address is returned. */
    method BumpChunk(i: nat, alignment: nat, size: nat) returns (memory: Pointer)
      requires i < |chunkList| && alignment > 0
      modifies this
      ensures State() == Hit(old(State()), i, alignment, size)
      ensures memory == HitAddress(old(chunkList[i]), alignment)
    {
      var chunk := chunkList[i];
      memory := chunk.base + chunk.size;
      var pad := AlignPadding(memory, alignment);
      memory := memory + pad;
      chunkList := chunkList[i := chunk.(size := chunk.size + pad + size)];
      this.size := this.size + size;
      slop := slop + pad;
    }

    /** The miss path of `Arena_requestWithAlignment`: the new chunk `chunk`
        takes the block at its start and becomes the head. */
    method PushChunk(chunk: Chunk, size: nat) returns (memory: Pointer)
      modifies this
      ensures State() == Miss(old(State()), chunk, size)
      ensures memory == chunk.base
    {
      var c := chunk.(size := chunk.size + size);
      chunkList := [c] + chunkList;
      chunks := chunks + 1;
      this.size := this.size + size;
      capacity := capacity + c.capacity;
      memory := c.base;
    }

    /** `Arena_request`: the size rounded up to `maxAlign`, at `maxAlign`. */
    method Request(size: nat, alloc: Option<Block>) returns (r: Option<Pointer>)
      requires Valid() && size > 0
      requires AllocOk(cfg, RoundToAlignBoundary(cfg.maxAlign, size), alloc)
      modifies this
      ensures (State(), r) == Requested(cfg, old(State()), cfg.maxAlign, RoundToAlignBoundary(cfg.maxAlign, size), alloc)
      ensures Valid()
    {
      DefaultRequestOk(cfg, State(), size, alloc);
      r := RequestWithAlignment(cfg.maxAlign, RoundToAlignBoundary(cfg.maxAlign, size), alloc);
    }

    /** The form arena.h declares for `Arena_requestWithAlignment`: it
        terminates when out of memory, so here the request must be served by
        an existing chunk or by a successful allocation. */
    method RequestWithAlignmentOrAbort(alignment: nat, size: nat, alloc: Option<Block>) returns (p: Pointer)
      requires RequestOk(cfg, State(), alignment, size, alloc)
      requires FirstFit(chunkList, alignment, size).IsSome() || alloc.IsSome()
      modifies this
      ensures (State(), Some(p)) == Requested(cfg, old(State()), alignment, size, alloc)
      ensures Valid() && p % alignment == 0
    {
      RequestedFailure(cfg, State(), alignment, size, alloc);
      RequestedAligned(cfg, State(), alignment, size, alloc);
      var r := RequestWithAlignment(alignment, size, alloc);
      p := r.Unwrap();
    }

    /** The form arena.h declares for `Arena_request`. */
    method RequestOrAbort(size: nat, alloc: Option<Block>) returns (p: Pointer)
      requires Valid() && size > 0
      requires AllocOk(cfg, RoundToAlignBoundary(cfg.maxAlign, size), alloc)
      requires FirstFit(chunkList, cfg.maxAlign, RoundToAlignBoundary(cfg.maxAlign, size)).IsSome() || alloc.IsSome()
      modifies this
      ensures (State(), Some(p)) == Requested(cfg, old(State()), cfg.maxAlign, RoundToAlignBoundary(cfg.maxAlign, size), alloc)
      ensures Valid() && p % cfg.maxAlign == 0
    {
      DefaultRequestOk(cfg, State(), size, alloc);
      p := RequestWithAlignmentOrAbort(cfg.maxAlign, RoundToAlignBoundary(cfg.maxAlign, size), alloc);
    }

    /** `Arena_getSize`: the bytes handed out, padding excluded. */
    function GetSize(): (r: nat)
      reads this
      requires Valid()
      ensures r + GetSlop() == SumSize(chunkList)
    {
      size
    }

    /** `Arena_getSlop`: the padding bytes. */
    function GetSlop(): (r: nat)
      reads this
      requires Valid()
      ensures r <= SumSize(chunkList)
    {
      slop
    }

    /** `Arena_getCapacity`: the total capacity of the chunks. */
    function GetCapacity(): (r: nat)
      reads this
      requires Valid()
      ensures r == SumCapacity(chunkList)
    {
      capacity
    }

    /** `Arena_getChunks`: the length of the chunk list, never 0. */
    function GetChunks(): (r: nat)
      reads this
      requires Valid()
      ensures r == |chunkList| && r >= 1
    {
      chunks
    }

    /** `Arena_getBestAvailable`: the largest free space of any chunk. */
    method GetBestAvailable() returns (best: nat)
      requires Valid()
      ensures best == BestAvailable(chunkList)
      ensures forall k | 0 <= k < |chunkList| :: Available(chunkList[k]) <= best
      ensures exists k | 0 <= k < |chunkList| :: best == Available(chunkList[k])
    {
      best := 0;
      var i := 0;
      while i < |chunkList|
        invariant 0 <= i <= |chunkList|
        invariant best == BestAvailable(chunkList[..i])
      {
        assert chunkList[..i + 1][..i] == chunkList[..i];
        best := Max(best, chunkList[i].capacity - chunkList[i].size);
        i := i + 1;
      }
      assert chunkList[..i] == chunkList;
      BestAvailableIsMax(chunkList);
    }

    /** `Arena_getWorstAvailable`: the smallest free space of any chunk. */
    method GetWorstAvailable() returns (worst: nat)
      requires Valid()
      ensures worst == WorstAvailable(chunkList)
      ensures forall k | 0 <= k < |chunkList| :: worst <= Available(chunkList[k])
      ensures worst <= SizeMax
      ensures worst == SizeMax || exists k | 0 <= k < |chunkList| :: worst == Available(chunkList[k])
    {
      worst := SizeMax;
      var i := 0;
      while i < |chunkList|
        invariant 0 <= i <= |chunkList|
        invariant worst == WorstAvailable(chunkList[..i])
      {
        assert chunkList[..i + 1][..i] == chunkList[..i];
        worst := Min(worst, chunkList[i].capacity - chunkList[i].size);
        i := i + 1;
      }
      assert chunkList[..i] == chunkList;
      WorstAvailableIsMin(chunkList);
    }

    /** `Arena_clear`: every chunk's mark back to 0 and its whole capacity
        zeroed; no data, no slop. */
    method Clear()
      requires Valid()
      modifies this
      ensures State() == Cleared(old(State()))
      ensures Valid()
    {
      ghost var s0 := State();
      ClearedProps(cfg, s0);
      var i := 0;
      while i < |chunkList|
        invariant 0 <= i <= |chunkList| == |s0.chunkList|
        invariant forall k | 0 <= k < i :: chunkList[k] == ResetChunk(s0.chunkList[k])
        invariant forall k | i <= k < |chunkList| :: chunkList[k] == s0.chunkList[k]
        invariant capacity == s0.capacity && chunks == s0.chunks && size == s0.size && slop == s0.slop
      {
        var chunk := chunkList[i];
        chunkList := chunkList[i := chunk.(size := 0, memory := Zeros(chunk.capacity))];
        i := i + 1;
      }
      assert chunkList == ResetAll(s0.chunkList);
      size := 0;
      slop := 0;
    }

    /** The scan of `Arena_shrink` over the chunks after the head: the chunks
        it keeps, in order, and the number and total capacity of the empty
        ones it frees. */
    static method KeepNonEmpty(t: seq<Chunk>) returns (kept: seq<Chunk>, freed: nat, freedCapacity: nat)
      ensures kept == NonEmpty(t)
      ensures freed == |EmptyOnes(t)| && freedCapacity == SumCapacity(EmptyOnes(t))
    {
      kept, freed, freedCapacity := [], 0, 0;
      var j := 0;
      assert t[0..] == t;
      while j < |t|
        invariant 0 <= j <= |t|
        invariant kept + NonEmpty(t[j..]) == NonEmpty(t)
        invariant freed + |EmptyOnes(t[j..])| == |EmptyOnes(t)|
        invariant freedCapacity + SumCapacity(EmptyOnes(t[j..])) == SumCapacity(EmptyOnes(t))
      {
        var chunk := t[j];
        FilterStep(t, j);
        if chunk.size == 0 {
          freed := freed + 1;
          freedCapacity := freedCapacity + chunk.capacity;
        } else {
          kept := kept + [chunk];
        }
        j := j + 1;
      }
      assert t[j..] == [];
    }

    /** `Arena_shrink` as the header describes it: every chunk after the head
        that holds no data is freed, and `chunks` and `capacity` drop by
        each freed chunk. */
    method Shrink()
      requires Valid()
      modifies this
      ensures State() == Shrunk(cfg, old(State()))
      ensures Valid()
    {
      ghost var s0 := State();
      var head, t := chunkList[0], chunkList[1..];
      Partition(t);
      var kept, freed, freedCapacity := KeepNonEmpty(t);
      chunkList := [head] + kept;
      chunks := chunks - freed;
      capacity := capacity - freedCapacity;
      ShrunkFromScan(cfg, s0, kept, chunks, capacity);
    }

    /** `Arena_delete`: frees the chunks head first, then the header; a null
        arena is ignored. Returns the chunks in the order they are freed. */
    static method Delete(self: Arena?) returns (freed: seq<Chunk>)
      requires self != null ==> |self.chunkList| >= 1
      modifies self
      ensures self == null ==> freed == []
      ensures self != null ==> freed == old(self.chunkList) && self.chunkList == []
    {
      freed := [];
      if self != null {
        while self.chunkList != []
          invariant freed + self.chunkList == old(self.chunkList)
          decreases |self.chunkList|
        {
          var chunk := self.chunkList[0];
          self.chunkList := self.chunkList[1..];
          freed := freed + [chunk];
        }
      }
    }
  }
}
