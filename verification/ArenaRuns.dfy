/**
 * Whole runs of the arena's entry points over the block tiling: what every run
 * keeps, when allocation succeeds, and that freeing recovers the region.
 */
module ArenaRuns {
  import opened ArenaSpec

  /** The control block together with the blocks it manages; w is the modulus of `size_t`. */
  datatype Heap = Heap(lo: nat, hi: nat, w: nat, blocks: seq<Block>, used: nat, highWater: nat)

  datatype Op = Alloc(size: nat) | Free(ptr: nat) | Reset

  function Max(a: nat, b: nat): nat { if a < b then b else a }

  /** The single free block laid over the whole region. */
  function Whole(lo: nat, hi: nat): seq<Block>
    requires lo + HDR <= hi
  {
    [Block(lo, hi - lo - HDR, true)]
  }

  ghost predicate Good(h: Heap)
  {
    && 0 < h.lo && h.lo + HDR <= h.hi < h.w
    && Tiles(h.blocks, h.lo, h.hi) && NoFreePair(h.blocks)
    && h.used == Used(h.blocks) <= h.highWater
  }

  /** Index of the block whose payload starts at ptr, or |bs|. */
  function Find(bs: seq<Block>, ptr: nat): (k: nat)
    ensures k <= |bs|
    ensures k < |bs| ==> bs[k].Ptr() == ptr
    ensures forall i :: 0 <= i < k ==> bs[i].Ptr() != ptr
  {
    if bs == [] || bs[0].Ptr() == ptr then 0 else 1 + Find(bs[1..], ptr)
  }

  function DoAlloc(h: Heap, size: nat): Heap
    requires h.w > 0
  {
    var k := FirstFit(h.blocks, Need(size, h.w));
    if k == |h.blocks| then h
    else
      var bs := Take(h.blocks, k, Need(size, h.w));
      var used := h.used + (if k < |bs| then bs[k].Footprint() else 0);
      h.(blocks := bs, used := used, highWater := Max(used, h.highWater))
  }

  /** The pointer `ove_arena_alloc` returns; 0 is NULL. */
  function AllocResult(h: Heap, size: nat): nat
    requires h.w > 0
  {
    var k := FirstFit(h.blocks, Need(size, h.w));
    if k == |h.blocks| then 0 else h.blocks[k].Ptr()
  }

  function DoFree(h: Heap, ptr: nat): Heap
  {
    var k := Find(h.blocks, ptr);
    if k == |h.blocks| || h.blocks[k].free then h
    else
      h.(blocks := Give(h.blocks, k),
         used := if h.used >= h.blocks[k].Footprint() then h.used - h.blocks[k].Footprint() else 0)
  }

  function DoReset(h: Heap): Heap
    requires h.lo + HDR <= h.hi
  {
    h.(blocks := Whole(h.lo, h.hi), used := 0)
  }

  function Do(h: Heap, op: Op): Heap
    requires h.w > 0 && h.lo + HDR <= h.hi
  {
    match op
    case Alloc(size) => DoAlloc(h, size)
    case Free(ptr) => DoFree(h, ptr)
    case Reset => DoReset(h)
  }

  // ------------------------------------------------------------ every operation

  lemma AllocKeeps(h: Heap, size: nat)
    requires Good(h)
    ensures Good(DoAlloc(h, size))
  {
    var need := Need(size, h.w);
    var k := FirstFit(h.blocks, need);
    if k < |h.blocks| {
      TakeTiles(h.blocks, k, need, h.lo, h.hi);
      TakeNoFreePair(h.blocks, k, need);
      TakeUsed(h.blocks, k, need);
    }
  }

  lemma UsedAtLeast(bs: seq<Block>, k: nat)
    requires k < |bs| && !bs[k].free
    ensures Used(bs) >= bs[k].Footprint()
  {
    UsedAround(bs, k, 1);
    assert bs[k..k + 1] == [bs[k]];
  }

  lemma FreeKeeps(h: Heap, ptr: nat)
    requires Good(h)
    ensures Good(DoFree(h, ptr))
    ensures DoFree(h, ptr).lo == h.lo && DoFree(h, ptr).hi == h.hi
  {
    var k := Find(h.blocks, ptr);
    if k < |h.blocks| && !h.blocks[k].free {
      UsedAtLeast(h.blocks, k);
      GiveKeeps(h.blocks, k, h.lo, h.hi);
      GiveNoFreePair(h.blocks, k);
    }
  }

  lemma WholeGood(lo: nat, hi: nat)
    requires lo + HDR <= hi && (hi - lo - HDR) % ALIGN == 0
    ensures Tiles(Whole(lo, hi), lo, hi) && NoFreePair(Whole(lo, hi)) && Used(Whole(lo, hi)) == 0
  {
  }

  /** A tiled region has an aligned extent, so it can always be laid out afresh. */
  lemma {:induction false} ExtentAligned(bs: seq<Block>, lo: nat, hi: nat)
    requires Tiles(bs, lo, hi)
    ensures lo + HDR <= hi && (hi - lo - HDR) % ALIGN == 0
  {
    if |bs| == 1 {
    } else {
      var front := bs[..|bs| - 1];
      assert bs[|bs| - 2 + 1].addr == bs[|bs| - 2].End();
      assert Tiles(front, lo, bs[|bs| - 2].End());
      ExtentAligned(front, lo, bs[|bs| - 2].End());
    }
  }

  lemma StepKeeps(h: Heap, op: Op)
    requires Good(h)
    ensures Good(Do(h, op))
    ensures Do(h, op).lo == h.lo && Do(h, op).hi == h.hi && Do(h, op).w == h.w
  {
    match op
    case Alloc(size) => AllocKeeps(h, size);
    case Free(ptr) => FreeKeeps(h, ptr);
    case Reset =>
      ExtentAligned(h.blocks, h.lo, h.hi);
      WholeGood(h.lo, h.hi);
  }

  // ------------------------------------------------------------------ whole runs

  function Fresh(lo: nat, hi: nat, w: nat): Heap
    requires lo + HDR <= hi
  {
    Heap(lo, hi, w, Whole(lo, hi), 0, 0)
  }

  predicate Bounded(h: Heap) { h.w > 0 && h.lo + HDR <= h.hi }

  function Exec(h: Heap, ops: seq<Op>): (r: Heap)
    requires Bounded(h)
    ensures Bounded(r)
    decreases |ops|
  {
    if ops == [] then h else Exec(Do(h, ops[0]), ops[1..])
  }

  /** The largest `used` seen from h through the run, both ends included. */
  function Peak(h: Heap, ops: seq<Op>): nat
    requires Bounded(h)
    decreases |ops|
  {
    if ops == [] then h.used else Max(h.used, Peak(Do(h, ops[0]), ops[1..]))
  }

  lemma {:induction false} RunKeeps(h: Heap, ops: seq<Op>)
    requires Good(h)
    ensures Good(Exec(h, ops)) && Exec(h, ops).lo == h.lo && Exec(h, ops).hi == h.hi && Exec(h, ops).w == h.w
    ensures Exec(h, ops).highWater == Max(h.highWater, Peak(h, ops))
    decreases |ops|
  {
    if ops == [] {
    } else {
      StepKeeps(h, ops[0]);
      RunKeeps(Do(h, ops[0]), ops[1..]);
    }
  }

  /**
   * After any run of alloc, free and reset over a fresh region, with any
   * arguments: the blocks tile the region without gap or overlap, payload sizes
   * are aligned, no two neighbours are free, `used` is the footprint of the live
   * blocks, and `high_water` is the largest `used` since init.
   */
  lemma EveryRunTiles(lo: nat, hi: nat, w: nat, ops: seq<Op>)
    requires 0 < lo && lo + HDR <= hi < w && (hi - lo - HDR) % ALIGN == 0
    ensures
      var h := Exec(Fresh(lo, hi, w), ops);
      && Tiles(h.blocks, lo, hi) && NoFreePair(h.blocks)
      && h.used == Used(h.blocks)
      && h.highWater == Peak(Fresh(lo, hi, w), ops)
  {
    WholeGood(lo, hi);
    RunKeeps(Fresh(lo, hi, w), ops);
  }

  // ----------------------------------------------------- what allocation returns

  /** For a request that rounds without wrapping, a block fits it exactly when it fits the rounded size. */
  lemma RoundFits(size: nat, payload: nat, w: nat)
    requires 0 < size && size + ALIGN <= w && payload % ALIGN == 0
    ensures Round(size, w) >= size && Round(size, w) % ALIGN == 0
    ensures payload >= Round(size, w) <==> payload >= size
  {
    assert (size + (ALIGN - 1)) % w == size + (ALIGN - 1);
  }

  /**
   * Allocation returns NULL exactly when no free block is large enough, and a
   * pointer it returns is a new live block of at least the requested size, in the
   * first block that fits, with every other live block untouched.
   */
  lemma AllocExact(h: Heap, size: nat)
    requires Good(h) && size + ALIGN <= h.w
    ensures AllocResult(h, size) == 0 <==> forall b :: b in h.blocks && b.free ==> b.payload < Max(size, 1)
    ensures AllocResult(h, size) == 0 ==> DoAlloc(h, size) == h
    ensures AllocResult(h, size) != 0 ==>
      exists b :: b !in Live(h.blocks) && b.Ptr() == AllocResult(h, size) && b.payload >= Max(size, 1) &&
                  Live(DoAlloc(h, size).blocks) == Live(h.blocks) + {b}
  {
    var size' := Max(size, 1);
    var need := Need(size, h.w);
    forall i | 0 <= i < |h.blocks|
      ensures h.blocks[i].payload >= need <==> h.blocks[i].payload >= size'
    {
      RoundFits(size', h.blocks[i].payload, h.w);
    }
    var k := FirstFit(h.blocks, need);
    if k < |h.blocks| {
      TakeLive(h.blocks, k, need);
      var b := Take(h.blocks, k, need)[k];
      RoundFits(size', 0, h.w);
      NotLive(h, k, b);
      assert h.blocks[k] in h.blocks;
    }
  }

  /**
   * First fit, and no hoarding: a granted block is the first free one that can hold the
   * request, and it keeps less than one header and two alignment units beyond it. What
   * it does not keep stays free.
   */
  lemma AllocTight(h: Heap, size: nat) returns (k: nat)
    requires Good(h) && size + ALIGN <= h.w && AllocResult(h, size) != 0
    ensures k < |h.blocks| && h.blocks[k].free && h.blocks[k].Ptr() == AllocResult(h, size)
    ensures forall i :: 0 <= i < k ==> !(h.blocks[i].free && h.blocks[i].payload >= Max(size, 1))
    ensures
      var bs := DoAlloc(h, size).blocks;
      && k < |bs| && bs[k].payload < Max(size, 1) + HDR + 2 * ALIGN
      && (bs[k].payload < h.blocks[k].payload ==> k + 1 < |bs| && bs[k + 1].free)
  {
    hide Good, Take, Round, Need;
    var need := Need(size, h.w);
    k := FirstFit(h.blocks, need);
    NeedFits(h, size);
    TakeTight(h.blocks, k, need);
  }

  /** A block can hold the rounded request exactly when it can hold the request. */
  lemma NeedFits(h: Heap, size: nat)
    requires Good(h) && size + ALIGN <= h.w
    ensures Need(size, h.w) < Max(size, 1) + ALIGN
    ensures forall i :: 0 <= i < |h.blocks| ==>
      (h.blocks[i].payload >= Need(size, h.w) <==> h.blocks[i].payload >= Max(size, 1))
  {
    RoundTight(Max(size, 1), h.w);
    forall i | 0 <= i < |h.blocks|
      ensures h.blocks[i].payload >= Need(size, h.w) <==> h.blocks[i].payload >= Max(size, 1)
    {
      RoundFits(Max(size, 1), h.blocks[i].payload, h.w);
    }
  }

  lemma RoundTight(size: nat, w: nat)
    requires 0 < size && size + ALIGN <= w
    ensures Round(size, w) < size + ALIGN
  {
    assert (size + (ALIGN - 1)) % w == size + (ALIGN - 1);
  }

  lemma NotLive(h: Heap, k: nat, b: Block)
    requires Good(h) && k < |h.blocks| && h.blocks[k].free && b.addr == h.blocks[k].addr
    ensures b !in Live(h.blocks)
  {
    if b in Live(h.blocks) {
      var i :| 0 <= i < |h.blocks| && h.blocks[i] == b;
      BlocksDisjoint(h.blocks, h.lo, h.hi, i, k);
      assert false;
    }
  }

  /**
   * A request within 15 bytes of the top of `size_t` rounds to zero. An
   * allocation that succeeds is at least as large as was asked for exactly when
   * the rounding does not wrap.
   */
  lemma LargeEnoughIffNoWrap(h: Heap, size: nat)
    requires Good(h) && size < h.w && AllocResult(h, size) != 0
    ensures
      var k := FirstFit(h.blocks, Need(size, h.w));
      var bs := DoAlloc(h, size).blocks;
      k < |bs| && bs[k].Ptr() == AllocResult(h, size) && (bs[k].payload >= size <==> size + (ALIGN - 1) < h.w)
  {
    var need := Need(size, h.w);
    var k := FirstFit(h.blocks, need);
    TakeLive(h.blocks, k, need);
    TakeNeverGrows(h, k, need);
    if size + (ALIGN - 1) < h.w {
      RoundExact(if size == 0 then 1 else size, h.w);
    } else {
      assert size > 0;
      WrapsToZero(size, h.w);
      WithinRegion(h.blocks, h.lo, h.hi, k);
    }
  }

  /** The block handed out is never larger than the block it came from. */
  lemma TakeNeverGrows(h: Heap, k: nat, need: nat)
    requires k < |h.blocks| && h.blocks[k].payload >= need
    ensures k < |Take(h.blocks, k, need)| && Take(h.blocks, k, need)[k].payload <= h.blocks[k].payload
    ensures need == 0 && h.blocks[k].payload >= HDR + ALIGN ==> Take(h.blocks, k, need)[k].payload == 0
  {
  }

  lemma RoundExact(n: nat, w: nat)
    requires n + (ALIGN - 1) < w
    ensures Round(n, w) >= n
  {
    assert (n + (ALIGN - 1)) % w == n + (ALIGN - 1);
  }

  lemma WrapsToZero(n: nat, w: nat)
    requires ALIGN <= w && n < w <= n + (ALIGN - 1)
    ensures Round(n, w) == 0
  {
    assert (n + (ALIGN - 1)) % w == n + (ALIGN - 1) - w;
  }

  /** The wrap shows: a 32-bit arena with room hands out an empty block for a request of 2^32 - 1 bytes. */
  lemma HugeRequestGetsEmptyBlock()
    ensures
      var h := Fresh(0x1000, 0x1000 + HDR + 64, 0x1_0000_0000);
      Good(h) && AllocResult(h, 0xffff_ffff) == 0x1000 + HDR &&
        DoAlloc(h, 0xffff_ffff).blocks[0] == Block(0x1000, 0, false)
  {
    var h := Fresh(0x1000, 0x1000 + HDR + 64, 0x1_0000_0000);
    WholeGood(h.lo, h.hi);
    WrapsToZero(0xffff_ffff, h.w);
    assert Need(0xffff_ffff, h.w) == 0;
    assert FirstFit(h.blocks, 0) == 0;
  }

  // ------------------------------------------------------------------- recovery

  function FreeAll(h: Heap, ptrs: seq<nat>): Heap
    decreases |ptrs|
  {
    if ptrs == [] then h else FreeAll(DoFree(h, ptrs[0]), ptrs[1..])
  }

  ghost function LivePtrs(h: Heap): set<nat>
  {
    set b | b in Live(h.blocks) :: b.Ptr()
  }

  /** A payload pointer names one block. */
  lemma PtrNamesBlock(h: Heap, k: nat, b: Block)
    requires Good(h) && k < |h.blocks| && b in h.blocks && b.Ptr() == h.blocks[k].Ptr()
    ensures b == h.blocks[k]
  {
    var i :| 0 <= i < |h.blocks| && h.blocks[i] == b;
    if i != k { BlocksDisjoint(h.blocks, h.lo, h.hi, i, k); }
  }

  lemma LivePtr(h: Heap, k: nat)
    requires Good(h) && k < |h.blocks|
    ensures h.blocks[k].Ptr() in LivePtrs(h) <==> !h.blocks[k].free
  {
    if !h.blocks[k].free { assert h.blocks[k] in Live(h.blocks); }
    if h.blocks[k].Ptr() in LivePtrs(h) {
      var b :| b in Live(h.blocks) && b.Ptr() == h.blocks[k].Ptr();
      PtrNamesBlock(h, k, b);
    }
  }

  /** Freeing a pointer removes it, and only it, from the live pointers. */
  lemma FreeRemoves(h: Heap, ptr: nat)
    requires Good(h)
    ensures LivePtrs(DoFree(h, ptr)) == LivePtrs(h) - {ptr}
  {
    hide Good, Live, Give, Find;
    var k := Find(h.blocks, ptr);
    if k == |h.blocks| {
      UnknownPtr(h, ptr);
    } else {
      LivePtr(h, k);
      if !h.blocks[k].free { GiveRemoves(h, k); }
    }
  }

  lemma UnknownPtr(h: Heap, ptr: nat)
    requires Find(h.blocks, ptr) == |h.blocks|
    ensures ptr !in LivePtrs(h)
  {
  }

  lemma GiveRemoves(h: Heap, k: nat)
    requires Good(h) && k < |h.blocks| && !h.blocks[k].free
    ensures LivePtrs(h.(blocks := Give(h.blocks, k))) == LivePtrs(h) - {h.blocks[k].Ptr()}
  {
    hide Give, Find;
    GiveKeeps(h.blocks, k, h.lo, h.hi);
    forall b | b in Live(h.blocks) && b != h.blocks[k]
      ensures b.Ptr() != h.blocks[k].Ptr()
    {
      if b.Ptr() == h.blocks[k].Ptr() { PtrNamesBlock(h, k, b); }
    }
  }

  lemma {:induction false} FreeAllRemoves(h: Heap, ptrs: seq<nat>)
    requires Good(h)
    ensures Good(FreeAll(h, ptrs)) && FreeAll(h, ptrs).lo == h.lo && FreeAll(h, ptrs).hi == h.hi
    ensures LivePtrs(FreeAll(h, ptrs)) == LivePtrs(h) - (set p | p in ptrs)
    decreases |ptrs|
  {
    hide Good, DoFree, LivePtrs;
    if ptrs == [] {
    } else {
      FreeKeeps(h, ptrs[0]);
      FreeRemoves(h, ptrs[0]);
      FreeAllRemoves(DoFree(h, ptrs[0]), ptrs[1..]);
      assert (set p | p in ptrs) == {ptrs[0]} + (set p | p in ptrs[1..]);
    }
  }

  /** With nothing live and no two free neighbours, one block covers the region. */
  lemma NothingLiveIsWhole(h: Heap)
    requires Good(h) && LivePtrs(h) == {}
    ensures h.blocks == Whole(h.lo, h.hi) && h.used == 0
  {
    assert |h.blocks| > 1 ==> !(h.blocks[0].free && h.blocks[0 + 1].free);
    forall i | 0 <= i < |h.blocks|
      ensures h.blocks[i].free
    {
      LivePtr(h, i);
    }
    assert h.blocks == Whole(h.lo, h.hi);
    ExtentAligned(h.blocks, h.lo, h.hi);
    WholeGood(h.lo, h.hi);
  }

  /** After a reset nothing is live, the count is zero and the region is one free block; the high-water mark stays. */
  lemma ResetEmpties(h: Heap)
    requires Good(h)
    ensures
      var r := DoReset(h);
      && LivePtrs(r) == {} && r.used == 0 && Used(r.blocks) == 0 && r.highWater == h.highWater
      && |r.blocks| == 1 && r.blocks[0].free && r.blocks[0].addr == h.lo && r.blocks[0].End() == h.hi
  {
  }

  /**
   * Freeing every live block, in any order and with any repeats or stray
   * pointers among them, restores the single block of a fresh region.
   */
  lemma FreeingAllRecovers(h: Heap, ptrs: seq<nat>)
    requires Good(h) && forall p :: p in LivePtrs(h) ==> p in ptrs
    ensures FreeAll(h, ptrs).blocks == Whole(h.lo, h.hi) && FreeAll(h, ptrs).used == 0
  {
    FreeAllRemoves(h, ptrs);
    NothingLiveIsWhole(FreeAll(h, ptrs));
  }

  /** A pointer freed once is ignored when freed again, whatever was freed in between. */
  lemma DoubleFreeIgnored(h: Heap, ptr: nat, between: seq<nat>)
    requires Good(h)
    ensures
      var h' := FreeAll(DoFree(h, ptr), between);
      DoFree(h', ptr) == h'
  {
    FreeKeeps(h, ptr);
    FreeRemoves(h, ptr);
    FreeAllRemoves(DoFree(h, ptr), between);
    var h' := FreeAll(DoFree(h, ptr), between);
    var k := Find(h'.blocks, ptr);
    if k < |h'.blocks| { LivePtr(h', k); }
  }
}
