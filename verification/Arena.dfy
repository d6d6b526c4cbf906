/**
 * The entry points of backends/common/ove_arena.c, updating the control block
 * and the headers in place. Each is proved to do to the block tiling what
 * ArenaRuns says, so everything proved there holds of the stored list.
 */
module Arena {
  import opened Arith
  import opened ArenaSpec
  import opened ArenaRuns
  import opened ArenaMemory

  datatype Status = Ok | InvalidParam | NoMemory

  /** The last block keeps some payload, so that every payload pointer lies inside the region. */
  ghost predicate LastRoom(bs: seq<Block>)
  {
    |bs| > 0 && bs[|bs| - 1].payload > 0
  }

  lemma TakeLastRoom(bs: seq<Block>, k: nat, need: nat)
    requires LastRoom(bs) && k < |bs| && bs[k].payload >= need
    ensures LastRoom(Take(bs, k, need))
  {
    var r := Take(bs, k, need);
    assert k < |bs| - 1 ==> r[|r| - 1] == bs[|bs| - 1];
  }

  lemma MergeLastRoom(bs: seq<Block>, i: int)
    requires LastRoom(bs)
    ensures LastRoom(MergeIfFree(bs, i))
  {
    var r := MergeIfFree(bs, i);
    assert i < |bs| - 2 ==> r[|r| - 1] == bs[|bs| - 1];
  }

  lemma GiveLastRoom(bs: seq<Block>, k: nat)
    requires LastRoom(bs) && k < |bs|
    ensures LastRoom(Give(bs, k))
  {
    var a := bs[k := bs[k].(free := true)];
    MergeLastRoom(a, k);
    MergeLastRoom(MergeIfFree(a, k), k - 1);
  }

  /** The live blocks fit in the region, so `used` cannot wrap. */
  lemma {:induction false} UsedFits(bs: seq<Block>, lo: nat, hi: nat)
    requires Chained(bs, lo, hi)
    ensures lo + Used(bs) <= hi
  {
    if |bs| == 1 {
      assert bs[1..] == [];
    } else {
      var rest := bs[1..];
      assert bs[0 + 1].addr == bs[0].End();
      forall i | 0 <= i < |rest| - 1 ensures rest[i + 1].addr == rest[i].End() {
        assert bs[i + 1 + 1].addr == bs[i + 1].End();
      }
      UsedFits(rest, bs[1].addr, hi);
    }
  }

  lemma FirstFitIs(bs: seq<Block>, need: nat, k: nat)
    requires k <= |bs|
    requires forall i :: 0 <= i < k ==> !(bs[i].free && bs[i].payload >= need)
    requires k < |bs| ==> bs[k].free && bs[k].payload >= need
    ensures FirstFit(bs, need) == k
  {
    var f := FirstFit(bs, need);
    assert f < |bs| ==> bs[f].free && bs[f].payload >= need;
  }

  /** The distance from an address up to the next multiple of ALIGN. */
  function Padding(a: nat): nat { (ALIGN - a % ALIGN) % ALIGN }

  lemma PaddingAligns(a: nat)
    ensures (a + Padding(a)) % ALIGN == 0 && Padding(a) < ALIGN
    ensures a + (ALIGN - 1) - (a + (ALIGN - 1)) % ALIGN == a + Padding(a)
    ensures a > 0 ==> ALIGN <= a + Padding(a)
  {
  }

  lemma PaddingToTop(a: nat, w: nat)
    requires a < w < a + ALIGN && w % ALIGN == 0
    ensures Padding(a) == w - a
  {
  }

  lemma RoundCases(n: nat, w: nat)
    requires n < w && ALIGN < w
    ensures
      var up := n + (ALIGN - 1);
      Round(n, w) == if up < w then up - up % ALIGN else 0
  {
    NearMod(n + (ALIGN - 1), w);
  }

  /** The start computed by rounding up, whether or not the rounding wraps, is the padded address. */
  lemma AdjustIs(buf: nat, bytes: nat, w: nat)
    requires 0 < buf && buf + bytes < w && ALIGN < w && w % ALIGN == 0
    ensures
      var adjust := (Round(buf, w) - buf) % w;
      && adjust == Padding(buf)
      && (buf + adjust) % ALIGN == 0
      && (adjust < bytes ==> ALIGN <= buf + adjust)
  {
    hide Padding, Round;
    PaddingAligns(buf);
    RoundCases(buf, w);
    if buf + (ALIGN - 1) < w {
      NearMod(Padding(buf), w);
    } else {
      PaddingToTop(buf, w);
      NearMod(0 - buf, w);
    }
  }

  /** `ove_arena_t` and the region it manages. */
  class Arena {
    /** Modulus of `size_t` and of addresses. */
    const w: nat
    var base: nat
    var size: nat
    var used: nat
    var highWater: nat
    var first: nat
    var mem: Memory
    ghost var blocks: seq<Block>
    ghost var retired: set<nat>

    constructor (w: nat)
      ensures this.w == w && first == 0 && base == 0 && Valid()
    {
      this.w := w;
      base, size, used, highWater, first, mem, blocks, retired := 0, 0, 0, 0, 0, map[], [], {};
    }

    /** End of the last block: the region rounded down to whole alignment units. */
    ghost function Hi(): nat
      reads this
    {
      if size < HDR then base else base + HDR + ((size - HDR) - (size - HDR) % ALIGN)
    }

    ghost function Abs(): Heap
      reads this
    {
      Heap(base, Hi(), w, blocks, used, highWater)
    }

    ghost predicate Laid()
      reads this
    {
      && first == base && base % ALIGN == 0 && ALIGN <= base && base + size < w && HDR + ALIGN <= size
      && Good(Abs()) && LastRoom(blocks) && Stored(mem, blocks, retired, base, Hi()) && Exact(mem, blocks, retired)
    }

    /** Not initialised yet, or laid out. */
    ghost predicate Valid()
      reads this
    {
      (first == 0 && base == 0) || Laid()
    }

    /** `arena_lay_first`: one header is written, and the arena knows of no other. */
    method LayFirst()
      requires ALIGN <= base && base % ALIGN == 0 && base + size < w && HDR + ALIGN <= size
      modifies this`mem, this`first, this`used, this`blocks, this`retired
      ensures Laid()
      ensures blocks == Whole(base, Hi()) && used == 0 && retired == {}
    {
      var payload := (size - HDR) - (size - HDR) % ALIGN;
      StoreKeys(map[], base, Header(0, 0, payload, true, MAGIC));
      mem := Store(map[], base, Header(0, 0, payload, true, MAGIC));
      first := base;
      used := 0;
      blocks := [Block(base, payload, true)];
      retired := {};
      WholeGood(base, Hi());
      assert At(mem, blocks[0].addr) == Known(HeaderOf(blocks, 0));
    }

    /**
     * `ove_arena_init`: succeeds exactly when an aligned header and one minimum
     * slot fit; a failed call changes nothing.
     */
    method Init(buf: nat, bytes: nat) returns (rc: Status)
      requires buf + bytes < w && ALIGN < w && w % ALIGN == 0
      modifies this
      ensures buf == 0 <==> rc == InvalidParam
      ensures buf != 0 ==> (rc == Ok <==> Padding(buf) + HDR + ALIGN <= bytes)
      ensures rc != Ok ==> unchanged(this)
      ensures rc == Ok ==> Laid() && base == buf + Padding(buf) && size == bytes - Padding(buf)
      ensures rc == Ok ==> Abs() == Fresh(base, Hi(), w) && base + size - ALIGN < Hi() <= base + size
    {
      if buf == 0 { return InvalidParam; }
      var start := Round(buf, w);
      var adjust := (start - buf) % w;
      AdjustIs(buf, bytes, w);
      if bytes <= adjust || bytes - adjust < HDR + ALIGN { return NoMemory; }
      base := buf + adjust;
      size := bytes - adjust;
      highWater := 0;
      LayFirst();
      rc := Ok;
    }

    /** Walk the list to the first free block of at least `need` bytes. */
    method Walk(need: nat) returns (b: nat, ghost k: nat)
      requires Laid()
      ensures k == FirstFit(blocks, need)
      ensures b == if k < |blocks| then blocks[k].addr else 0
      ensures k < |blocks| ==> b > 0 && At(mem, b) == Known(HeaderOf(blocks, k))
    {
      b, k := first, 0;
      HeadersApart(blocks, base, Hi(), 0);
      while b != 0 && !(mem[b].isFree && mem[b].payload >= need)
        invariant k <= |blocks|
        invariant k < |blocks| ==> b == blocks[k].addr && b > 0 && At(mem, b) == Known(HeaderOf(blocks, k))
        invariant k == |blocks| ==> b == 0
        invariant forall i :: 0 <= i < k ==> !(blocks[i].free && blocks[i].payload >= need)
        decreases |blocks| - k
      {
        b := mem[b].next;
        k := k + 1;
        if k < |blocks| {
          HeadersApart(blocks, base, Hi(), k);
          assert At(mem, blocks[k].addr) == Known(HeaderOf(blocks, k));
        }
      }
      FirstFitIs(blocks, need, k);
    }

    /** Cut block b after `need` bytes; the rest becomes a free block of its own. */
    method Cut(b: nat, need: nat, ghost k: nat, ghost hi: nat)
      requires Stored(mem, blocks, retired, base, hi) && k < |blocks| && b == blocks[k].addr
      requires blocks[k].payload >= need + HDR
      modifies this`mem, this`blocks, this`retired
      ensures blocks == Split(old(blocks), k, need) && retired == Outside(old(retired), b, b + HDR + need + HDR)
      ensures Stored(mem, blocks, retired, base, hi) && mem.Keys <= old(mem).Keys + {b + HDR + need}
    {
      hide Linked, RetiredOk, Chained, Split, Outside, Store;
      SplitReady(mem, blocks, base, hi, k, need);
      SplitStored(mem, blocks, retired, base, hi, k, need);
      ghost var m := mem;
      var rem := b + HDR + need;
      var next := mem[b].next;
      SplitKeys(mem, b, need);
      mem := Store(mem, rem, Header(next, b, mem[b].payload - need - HDR, true, MAGIC));
      if next != 0 { mem := Store(mem, next, mem[next].(prev := rem)); }
      mem := Store(mem, b, mem[b].(next := rem, payload := need));
      assert mem == SplitMem(m, b, need);
      retired := Outside(retired, b, rem + HDR);
      blocks := Split(blocks, k, need);
    }

    /** Set the free flag of block b. */
    method Mark(b: nat, isFree: bool, ghost k: nat, ghost hi: nat)
      requires Stored(mem, blocks, retired, base, hi) && k < |blocks| && b == blocks[k].addr
      modifies this`mem, this`blocks
      ensures blocks == old(blocks)[k := old(blocks)[k].(free := isFree)]
      ensures Headers(blocks, retired) == old(Headers(blocks, retired))
      ensures Stored(mem, blocks, retired, base, hi) && At(mem, b) == Known(HeaderOf(blocks, k))
      ensures mem.Keys <= old(mem).Keys
    {
      hide RetiredOk, Chained, Store, Headers;
      assert At(mem, blocks[k].addr) == Known(HeaderOf(blocks, k));
      StoreKeys(mem, b, mem[b].(isFree := isFree));
      MarkHeaders(blocks, k, isFree, retired);
      MarkStored(mem, blocks, retired, base, hi, k, isFree);
      mem := Store(mem, b, mem[b].(isFree := isFree));
      blocks := blocks[k := blocks[k].(free := isFree)];
      assert At(mem, blocks[k].addr) == Known(HeaderOf(blocks, k));
    }

    /**
     * Cut the tail off block b when it can host another block, and mark b allocated.
     * From here on its payload is the client's, and the arena no longer knows what
     * is in it.
     */
    method Carve(b: nat, need: nat, ghost k: nat)
      requires Laid() && k < |blocks| && b == blocks[k].addr && blocks[k].payload >= need
      modifies this`mem, this`blocks, this`retired
      ensures blocks == Take(old(blocks), k, need)
      ensures Stored(mem, blocks, retired, base, Hi()) && Exact(mem, blocks, retired)
      ensures k < |blocks| && At(mem, b) == Known(HeaderOf(blocks, k))
      ensures retired
              == Outside(old(retired), b, blocks[k].End() + if |blocks| > |old(blocks)| then HDR else 0)
    {
      hide Good, LastRoom, Linked, RetiredOk, Chained, Take, Outside, Handed, Exact;
      HeaderLinks(mem, blocks, base, Hi(), k);
      RoomToAdd(Abs(), k, need);
      TakeIsSplitThenMark(blocks, k, need);
      ghost var m, bs, was := mem, blocks, retired;
      var end, upTo := b + HDR + need, b + HDR + need + HDR;
      if mem[b].payload >= (need + HDR + ALIGN) % w {
        Cut(b, need, k, Hi());
      } else {
        end := b + HDR + mem[b].payload;
        upTo := end;
        ForgetRetired(mem, blocks, retired, b, blocks[k].End());
        retired := Outside(retired, b, blocks[k].End());
      }
      Mark(b, false, k, Hi());
      TakeShape(bs, k, need);
      HandedStored(mem, blocks, retired, base, Hi(), k, upTo, was);
      HandedExact(m, mem, bs, blocks, was, k, need, upTo);
      mem := Handed(mem, b, upTo, end);
    }

    /** `ove_arena_alloc` */
    method Alloc(bytes: nat) returns (ptr: nat)
      requires Valid() && bytes < w
      modifies this`mem, this`blocks, this`retired, this`used, this`highWater
      ensures Valid()
      ensures first == 0 ==> ptr == 0 && unchanged(this)
      ensures first != 0 ==> Abs() == DoAlloc(old(Abs()), bytes) && ptr == AllocResult(old(Abs()), bytes)
      ensures ptr != 0 ==> ptr % ALIGN == 0
    {
      hide Good, Stored, LastRoom, Take, FirstFit, Round, Used, Exact, Outside;
      if first == 0 { return 0; }
      var need := Round(if bytes == 0 then 1 else bytes, w);
      ghost var h := Abs();
      AllocKeeps(h, bytes);
      var b;
      ghost var k;
      b, k := Walk(need);
      if b == 0 { return 0; }
      BlockAligned(h, k);
      TakeLastRoom(blocks, k, need);
      UsedBelow(DoAlloc(h, bytes));
      Carve(b, need, k);
      Charge(HDR + mem[b].payload);
      ptr := b + HDR;
    }

    /** Count an allocated footprint and keep the high-water mark. */
    method Charge(bytes: nat)
      requires used + bytes < w
      modifies this`used, this`highWater
      ensures used == old(used) + bytes && highWater == Max(old(highWater), used)
    {
      NearMod(used + bytes, w);
      used := (used + bytes) % w;
      if used > highWater { highWater := used; }
    }

    /** Block p swallows its successor n: the two coalescing blocks of `ove_arena_free`. */
    method Absorb(p: nat, n: nat, ghost i: nat, ghost hi: nat)
      requires Stored(mem, blocks, retired, base, hi) && i + 1 < |blocks|
      requires p == blocks[i].addr && n == blocks[i + 1].addr
      modifies this`mem, this`blocks, this`retired
      ensures blocks == Merge(old(blocks), i) && retired == old(retired) + {n}
      ensures Headers(blocks, retired) == old(Headers(blocks, retired))
      ensures Stored(mem, blocks, retired, base, hi) && mem.Keys <= old(mem).Keys
    {
      hide Linked, RetiredOk, Chained, Merge, Headers, Store;
      MergeHeaders(blocks, i, retired);
      AbsorbReady(mem, blocks, retired, base, hi, i);
      AbsorbStored(mem, blocks, retired, base, hi, i);
      ghost var m := mem;
      var after := mem[n].next;
      AbsorbKeys(mem, p, n);
      mem := Store(mem, p, mem[p].(payload := mem[p].payload + HDR + mem[n].payload, next := after));
      if after != 0 { mem := Store(mem, after, mem[after].(prev := p)); }
      mem := Store(mem, n, mem[n].(magic := 0));
      assert mem == AbsorbMem(m, p, n);
      retired := retired + {n};
      blocks := Merge(blocks, i);
    }

    /** `ove_arena_owns` */
    predicate Owns(ptr: nat)
      reads this
    {
      ptr != 0 && base <= ptr < base + size
    }

    /** The header that `free` reads before ptr: one the arena knows of, or whatever else is there. */
    function HeaderBefore(ptr: nat, raw: Header): Header
      reads this
    {
      if ptr >= HDR && ptr - HDR in mem then mem[ptr - HDR] else raw
    }

    /**
     * `ove_arena_free`: null, foreign, already free and merged-away addresses change
     * nothing, and neither does an address inside client data, as long as the bytes
     * before it, `raw`, do not look like the header of an allocated block. Every
     * header readable before is readable after.
     */
    method Free(ptr: nat, raw: Header)
      requires Valid() && !LooksLive(raw)
      modifies this`mem, this`blocks, this`retired, this`used
      ensures Valid()
      ensures first == 0 ==> unchanged(this)
      ensures first != 0 ==> Abs() == DoFree(old(Abs()), ptr)
      ensures Headers(blocks, retired) == old(Headers(blocks, retired))
    {
      hide Good, LastRoom, MergeIfFree, Find, Used, Linked, RetiredOk, Chained, Headers, Exact;
      if first == 0 { return; }
      if !Owns(ptr) {
        NotOwned(Abs(), base + size, ptr);
        return;
      }
      ghost var h := Abs();
      FreeKeeps(h, ptr);
      ghost var k := Find(blocks, ptr);
      FoundHeader(mem, blocks, retired, ptr, raw);
      var head := HeaderBefore(ptr, raw);
      if head.magic != MAGIC || head.isFree { return; }
      var b := ptr - HDR;
      GiveLastRoom(blocks, k);
      UsedCovers(h, k);
      ghost var m := mem;
      Mark(b, true, k, Hi());
      used := used - (HDR + mem[b].payload);
      Coalesce(b, k, Hi());
      StillExact(m, mem, h.blocks, old(retired), blocks, retired);
    }

    /** Forward, then backward. */
    method Coalesce(b: nat, ghost k: nat, ghost hi: nat)
      requires Stored(mem, blocks, retired, base, hi) && k < |blocks| && b == blocks[k].addr && blocks[k].free
      modifies this`mem, this`blocks, this`retired
      ensures blocks == MergeIfFree(MergeIfFree(old(blocks), k), k - 1)
      ensures Stored(mem, blocks, retired, base, hi) && Headers(blocks, retired) == old(Headers(blocks, retired))
      ensures mem.Keys <= old(mem).Keys
    {
      hide RetiredOk, Headers;
      HeaderLinks(mem, blocks, base, hi, k);
      var n := mem[b].next;
      if n != 0 && mem[n].isFree { Absorb(b, n, k, hi); }
      HeaderLinks(mem, blocks, base, hi, k);
      var p := mem[b].prev;
      if p != 0 && mem[p].isFree { Absorb(p, b, k - 1, hi); }
    }

    /** `ove_arena_reset` */
    method ResetAll()
      requires Valid()
      modifies this`mem, this`first, this`used, this`blocks, this`retired
      ensures Valid()
      ensures old(base) == 0 ==> unchanged(this)
      ensures old(base) != 0 ==> Abs() == DoReset(old(Abs()))
    {
      hide Good, Stored;
      if base == 0 { return; }
      LayFirst();
    }

    /**
     * Any sequence of calls on an initialised arena, with any arguments: the headers
     * in memory follow the block lists call by call. `raws` is what a free finds where
     * the arena knows of no header; nothing there looks like an allocated block.
     */
    method Run(ops: seq<Op>, raws: seq<Header>)
      requires Valid() && first != 0 && |raws| == |ops|
      requires forall i :: 0 <= i < |ops| ==> (ops[i].Alloc? ==> ops[i].size < w) && !LooksLive(raws[i])
      modifies this`mem, this`blocks, this`retired, this`used, this`highWater, this`first
      ensures Valid() && first != 0
      ensures Bounded(old(Abs())) && Abs() == Exec(old(Abs()), ops)
      decreases |ops|
    {
      hide Good, Stored, LastRoom, Exact, DoAlloc, DoFree, Headers;
      GoodBounded(Abs());
      if ops == [] {
        return;
      }
      match ops[0] {
        case Alloc(size) => var ptr := Alloc(size);
        case Free(ptr) => Free(ptr, raws[0]);
        case Reset => ResetAll();
      }
      Run(ops[1..], raws[1..]);
    }
  }

  lemma GoodBounded(h: Heap)
    requires Good(h)
    ensures Bounded(h)
  {
  }

  /** The arena knows of no header but those of its blocks and the merged-away ones. */
  ghost predicate Exact(m: Memory, bs: seq<Block>, retired: set<nat>)
  {
    forall x :: x in m ==> x in Headers(bs, retired)
  }

  lemma StillExact(m: Memory, m': Memory, bs: seq<Block>, retired: set<nat>, bs': seq<Block>, retired': set<nat>)
    requires Exact(m, bs, retired) && m'.Keys <= m.Keys && Headers(bs', retired') == Headers(bs, retired)
    ensures Exact(m', bs', retired')
  {
    hide Headers;
  }

  lemma SplitKeys(m: Memory, b: nat, need: nat)
    requires At(m, b).Known? && m[b].payload >= need + HDR
    ensures SplitMem(m, b, need).Keys <= m.Keys + {b + HDR + need}
  {
    hide Store;
    var rem := b + HDR + need;
    var next := m[b].next;
    var m1 := Store(m, rem, Header(next, b, m[b].payload - need - HDR, true, MAGIC));
    var m2 := if At(m1, next).Known? && next != 0 then Store(m1, next, m1[next].(prev := rem)) else m1;
    StoreKeys(m, rem, Header(next, b, m[b].payload - need - HDR, true, MAGIC));
    if At(m1, next).Known? && next != 0 { StoreKeys(m1, next, m1[next].(prev := rem)); }
    if At(m2, b).Known? { StoreKeys(m2, b, m2[b].(next := rem, payload := need)); }
  }

  lemma AbsorbKeys(m: Memory, p: nat, n: nat)
    requires At(m, p).Known? && At(m, n).Known?
    ensures AbsorbMem(m, p, n).Keys <= m.Keys
  {
    hide Store;
    var after := m[n].next;
    var head := m[p].(payload := m[p].payload + HDR + m[n].payload, next := after);
    var m1 := Store(m, p, head);
    var m2 := if At(m1, after).Known? && after != 0 then Store(m1, after, m1[after].(prev := p)) else m1;
    StoreKeys(m, p, head);
    if At(m1, after).Known? && after != 0 { StoreKeys(m1, after, m1[after].(prev := p)); }
    if At(m2, n).Known? { StoreKeys(m2, n, m2[n].(magic := 0)); }
  }

  /** The headers known after the payload in front of `end` has been handed to the client. */
  function Handed(m: Memory, from: nat, upTo: nat, end: nat): Memory
  {
    map x | x in m && !(from < x < upTo && x != end) :: m[x]
  }

  /** The block list after an allocation, as far as addresses go. */
  lemma TakeShape(bs: seq<Block>, k: nat, need: nat)
    requires k < |bs| && bs[k].payload >= need
    ensures
      var r := Take(bs, k, need);
      && k < |r| && r[k].addr == bs[k].addr
      && (if bs[k].payload >= need + HDR + ALIGN then
            |r| == |bs| + 1 && r[k + 1].addr == r[k].End() == bs[k].addr + HDR + need
          else |r| == |bs| && r[k].End() == bs[k].End())
  {
  }

  lemma TakeAddresses(bs: seq<Block>, k: nat, need: nat, b: Block)
    requires k < |bs| && bs[k].payload >= need && b in bs
    ensures exists c :: c in Take(bs, k, need) && c.addr == b.addr
  {
    var r := Take(bs, k, need);
    var i :| 0 <= i < |bs| && bs[i] == b;
    var j := if bs[k].payload >= need + HDR + ALIGN && i > k then i + 1 else i;
    assert r[j].addr == b.addr;
  }

  lemma HandedStored(
    m: Memory, bs: seq<Block>, retired: set<nat>, lo: nat, hi: nat, k: nat, upTo: nat, was: set<nat>)
    requires Stored(m, bs, retired, lo, hi) && k < |bs| && retired == Outside(was, bs[k].addr, upTo)
    requires upTo == bs[k].End() || (k + 1 < |bs| && upTo == bs[k].End() + HDR)
    ensures Stored(Handed(m, bs[k].addr, upTo, bs[k].End()), bs, retired, lo, hi)
    ensures At(Handed(m, bs[k].addr, upTo, bs[k].End()), bs[k].addr) == At(m, bs[k].addr)
  {
    hide Chained, Apart;
    var m' := Handed(m, bs[k].addr, upTo, bs[k].End());
    forall j | 0 <= j < |bs| ensures At(m', bs[j].addr) == Known(HeaderOf(bs, j)) {
      assert At(m, bs[j].addr) == Known(HeaderOf(bs, j));
      NotHanded(bs, lo, hi, k, j, upTo);
    }
    forall x | x in retired ensures At(m', x).Known? && At(m', x).h.magic != MAGIC && Apart(x, bs) {
      assert At(m, x).Known?;
    }
  }

  /** No block header lies in the payload of block k, nor overlaps the header behind it. */
  lemma NotHanded(bs: seq<Block>, lo: nat, hi: nat, k: nat, j: nat, upTo: nat)
    requires Chained(bs, lo, hi) && k < |bs| && j < |bs|
    requires upTo == bs[k].End() || (k + 1 < |bs| && upTo == bs[k].End() + HDR)
    ensures !(bs[k].addr < bs[j].addr < upTo && bs[j].addr != bs[k].End())
  {
    if j < k {
      AddressesAscend(bs, lo, hi, j, k);
    } else if j > k {
      AddressesAscend(bs, lo, hi, k, j);
      if j > k + 1 {
        AddressesAscend(bs, lo, hi, k + 1, j);
        AddressesAscend(bs, lo, hi, k, k + 1);
      } else {
        assert bs[k + 1].addr == bs[k].End();
      }
    }
  }

  lemma HandedExact(
    m: Memory, m': Memory, bs: seq<Block>, bs': seq<Block>, was: set<nat>, k: nat, need: nat, upTo: nat)
    requires Exact(m, bs, was) && k < |bs| && bs[k].payload >= need && bs' == Take(bs, k, need) && k < |bs'|
    requires
      var split := bs[k].payload >= need + HDR + ALIGN;
      && upTo == bs'[k].End() + (if split then HDR else 0)
      && m'.Keys <= m.Keys + (if split then {bs[k].addr + HDR + need} else {})
    ensures Exact(Handed(m', bs[k].addr, upTo, bs'[k].End()), bs', Outside(was, bs[k].addr, upTo))
  {
    hide Take;
    TakeShape(bs, k, need);
    var r := Handed(m', bs[k].addr, upTo, bs'[k].End());
    forall x | x in r ensures x in Headers(bs', Outside(was, bs[k].addr, upTo)) {
      assert x in m';
      if x !in m {
        assert bs'[k + 1].addr == x;
      } else if b :| b in bs && b.addr == x {
        TakeAddresses(bs, k, need, b);
      } else {
        assert x in was;
        if x == bs[k].addr { assert bs[k] in bs; }
      }
    }
  }

  /** What `free` does to the count of used bytes, given the header it finds. */
  function FreedCount(used: nat, head: Header, w: nat): int
    requires w > 0
  {
    if head.magic != MAGIC || head.isFree then used else (used - (HDR + head.payload)) % w
  }

  /**
   * Freeing an address that is no block's is harmless to the accounting if and only
   * if the bytes before it do not look like an allocated block of some size.
   */
  lemma StrayFreeHarmlessIff(used: nat, head: Header, w: nat)
    requires used < w
    ensures FreedCount(used, head, w) == used <==> !LooksLive(head) || (HDR + head.payload) % w == 0
  {
    if LooksLive(head) { SubtractsNothingIff(used, HDR + head.payload, w); }
  }

  lemma SubtractsNothingIff(used: nat, n: nat, w: nat)
    requires used < w
    ensures (used - n) % w == used <==> n % w == 0
  {
    if n % w == 0 {
      DivModUnique(used - n, w, 0 - n / w, used);
    } else if (used - n) % w == used {
      DivModUnique(n, w, 0 - (used - n) / w, 0);
    }
  }

  /** Freeing an address from before a reset, with a 16-byte block behind it, wraps the count of a 32-bit arena. */
  lemma StaleFreeWraps()
    ensures FreedCount(0, Header(0, 0, 16, false, MAGIC), WORD) == WORD - 48
  {
    NearMod(0 - 48, WORD);
  }

  /**
   * A reset writes one header and leaves the others where they are: every allocated
   * block but the first leaves bytes that still look like an allocated block, at an
   * address the arena no longer knows.
   */
  lemma StaleAfterReset(m: Memory, bs: seq<Block>, retired: set<nat>, lo: nat, hi: nat, k: nat, head: Header)
    requires Stored(m, bs, retired, lo, hi) && 0 < k < |bs| && !bs[k].free && lo + HDR <= hi
    ensures At(Store(m, lo, head), bs[k].addr) == Known(HeaderOf(bs, k)) && LooksLive(HeaderOf(bs, k))
    ensures Find(Whole(lo, hi), bs[k].Ptr()) == |Whole(lo, hi)|
  {
    hide Store;
    assert bs[0].addr == lo;
    HeadersApart(bs, lo, hi, 0);
    AddressesAscend(bs, lo, hi, 0, k);
    assert At(m, bs[k].addr) == Known(HeaderOf(bs, k));
  }

  /** Addresses at which a header written by the arena can still be read. */
  ghost function Headers(bs: seq<Block>, retired: set<nat>): set<nat>
  {
    (set b | b in bs :: b.addr) + retired
  }

  lemma MergeHeaders(bs: seq<Block>, i: nat, retired: set<nat>)
    requires i + 1 < |bs|
    ensures Headers(Merge(bs, i), retired + {bs[i + 1].addr}) == Headers(bs, retired)
  {
    var r := Merge(bs, i);
    forall a
      ensures a in Headers(r, retired + {bs[i + 1].addr}) <==> a in Headers(bs, retired)
    {
      if a in (set b | b in bs :: b.addr) {
        var j :| 0 <= j < |bs| && bs[j].addr == a;
        assert j <= i ==> r[j].addr == a;
        assert j > i + 1 ==> r[j - 1].addr == a;
      }
      if a in (set b | b in r :: b.addr) {
        var j :| 0 <= j < |r| && r[j].addr == a;
        assert bs[if j <= i then j else j + 1].addr == a;
      }
      assert bs[i + 1] in bs;
    }
  }

  lemma MarkHeaders(bs: seq<Block>, k: nat, free: bool, retired: set<nat>)
    requires k < |bs|
    ensures Headers(bs[k := bs[k].(free := free)], retired) == Headers(bs, retired)
  {
    var r := bs[k := bs[k].(free := free)];
    forall a
      ensures a in Headers(r, retired) <==> a in Headers(bs, retired)
    {
      if a in (set b | b in bs :: b.addr) {
        var j :| 0 <= j < |bs| && bs[j].addr == a;
        assert r[j].addr == a;
      }
      if a in (set b | b in r :: b.addr) {
        var j :| 0 <= j < |r| && r[j].addr == a;
        assert bs[j].addr == a;
      }
    }
  }

  lemma UsedCovers(h: Heap, k: nat)
    requires Good(h) && k < |h.blocks| && !h.blocks[k].free
    ensures h.used >= h.blocks[k].Footprint()
  {
    UsedAtLeast(h.blocks, k);
  }

  lemma UsedBelow(h: Heap)
    requires Good(h)
    ensures h.used < h.w
  {
    UsedFits(h.blocks, h.lo, h.hi);
  }

  lemma BlockAligned(h: Heap, k: nat)
    requires Good(h) && h.lo % ALIGN == 0 && k < |h.blocks|
    ensures h.blocks[k].addr % ALIGN == 0
  {
    if k > 0 {
      BlockAligned(h, k - 1);
      assert h.blocks[k - 1 + 1].addr == h.blocks[k - 1].End();
    }
  }

  /** A pointer outside the region is no block's payload. */
  lemma NotOwned(h: Heap, top: nat, ptr: nat)
    requires Good(h) && LastRoom(h.blocks) && h.hi <= top && !(h.lo <= ptr < top)
    ensures Find(h.blocks, ptr) == |h.blocks|
  {
    var k := Find(h.blocks, ptr);
    if k < |h.blocks| {
      WithinRegion(h.blocks, h.lo, h.hi, k);
      if k < |h.blocks| - 1 { AddressesAscend(h.blocks, h.lo, h.hi, k, |h.blocks| - 1); }
    }
  }

  lemma OnlyRetired(bs: seq<Block>, retired: set<nat>, ptr: nat)
    requires ptr >= HDR && ptr - HDR in Headers(bs, retired) && Find(bs, ptr) == |bs|
    ensures ptr - HDR in retired
  {
    forall b | b in bs ensures b.addr != ptr - HDR { assert b.Ptr() != ptr; }
  }

  /** What `free` reads before an address. */
  lemma FoundHeader(m: Memory, bs: seq<Block>, retired: set<nat>, ptr: nat, raw: Header)
    requires Linked(m, bs) && RetiredOk(m, bs, retired) && Exact(m, bs, retired) && !LooksLive(raw)
    ensures
      var k := Find(bs, ptr);
      var known := ptr >= HDR && ptr - HDR in m;
      var head := if known then m[ptr - HDR] else raw;
      if k < |bs| then known && head == HeaderOf(bs, k) else !LooksLive(head)
  {
    hide Headers, Find, Apart;
    var k := Find(bs, ptr);
    if k < |bs| {
      assert At(m, bs[k].addr) == Known(HeaderOf(bs, k));
    } else if ptr >= HDR && ptr - HDR in m {
      OnlyRetired(bs, retired, ptr);
      assert At(m, ptr - HDR).Known?;
    }
  }

  /** Following `next` and `prev` from block k. */
  lemma HeaderLinks(m: Memory, bs: seq<Block>, lo: nat, hi: nat, k: nat)
    requires 0 < lo && Chained(bs, lo, hi) && Linked(m, bs) && k < |bs|
    ensures At(m, bs[k].addr) == Known(HeaderOf(bs, k))
    ensures k + 1 < |bs| ==> bs[k + 1].addr > 0 && At(m, bs[k + 1].addr) == Known(HeaderOf(bs, k + 1))
    ensures k > 0 ==> bs[k - 1].addr > 0 && At(m, bs[k - 1].addr) == Known(HeaderOf(bs, k - 1))
  {
    if k + 1 < |bs| { HeadersApart(bs, lo, hi, k + 1); }
    if k > 0 { HeadersApart(bs, lo, hi, k - 1); }
  }

  lemma ForgetRetired(m: Memory, bs: seq<Block>, retired: set<nat>, from: nat, upTo: nat)
    requires RetiredOk(m, bs, retired)
    ensures RetiredOk(m, bs, Outside(retired, from, upTo))
  {
  }

  /** The split test does not wrap for a block that fits the request. */
  lemma RoomToAdd(h: Heap, k: nat, need: nat)
    requires Good(h) && ALIGN <= h.lo && k < |h.blocks| && h.blocks[k].payload >= need
    ensures (need + HDR + ALIGN) % h.w == need + HDR + ALIGN
  {
    WithinRegion(h.blocks, h.lo, h.hi, k);
    NearMod(need + HDR + ALIGN, h.w);
  }
}
