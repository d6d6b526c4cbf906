/**
 * How ove_arena.c keeps the blocks: headers inside the managed region, linked in
 * address order through `next` and `prev`. Here, on memory as a value, are the
 * stores that merge, split and mark blocks, and what each leaves readable.
 */
module ArenaMemory {
  import opened ArenaSpec

  /** ARENA_MAGIC */
  const MAGIC: nat := 0x4f41_5242

  /** `struct ove_arena_blk`; pointers are addresses and 0 is NULL. */
  datatype Header = Header(next: nat, prev: nat, payload: nat, isFree: bool, magic: nat)

  type Memory = map<nat, Header>

  datatype Cell = Unknown | Known(h: Header)

  predicate Overlap(x: nat, a: nat) { x < a + HDR && a < x + HDR }

  /** The header that can be read at address a. */
  function At(m: Memory, a: nat): Cell
  {
    if a in m then Known(m[a]) else Unknown
  }

  /** Write header h at a. Whatever overlaps its bytes can no longer be read as a header. */
  function Store(m: Memory, a: nat, h: Header): (m': Memory)
    ensures forall x :: At(m', x) == if x == a then Known(h) else if Overlap(x, a) then Unknown else At(m, x)
  {
    (map x | x in m && !Overlap(x, a) :: m[x])[a := h]
  }

  lemma StoreKeys(m: Memory, a: nat, h: Header)
    ensures Store(m, a, h).Keys <= m.Keys + {a}
  {
    var m' := Store(m, a, h);
    forall x | x in m' ensures x in m.Keys + {a} { assert At(m', x).Known?; }
  }

  /** What the bytes before an address look like to `free`: the header of an allocated block. */
  predicate LooksLive(h: Header) { h.magic == MAGIC && !h.isFree }

  function HeaderOf(bs: seq<Block>, i: nat): Header
    requires i < |bs|
  {
    Header(if i + 1 < |bs| then bs[i + 1].addr else 0, if i > 0 then bs[i - 1].addr else 0,
           bs[i].payload, bs[i].free, MAGIC)
  }

  /** Memory holds the doubly linked list of the blocks: `next` and `prev` are inverse. */
  ghost predicate Linked(m: Memory, bs: seq<Block>)
  {
    forall i :: 0 <= i < |bs| ==> At(m, bs[i].addr) == Known(HeaderOf(bs, i))
  }

  ghost predicate Apart(x: nat, bs: seq<Block>)
  {
    forall i :: 0 <= i < |bs| ==> !Overlap(x, bs[i].addr)
  }

  /** Headers merged away keep a cleared magic word for as long as nobody overwrites them. */
  ghost predicate RetiredOk(m: Memory, bs: seq<Block>, retired: set<nat>)
  {
    forall x :: x in retired ==> At(m, x).Known? && At(m, x).h.magic != MAGIC && Apart(x, bs)
  }

  ghost predicate Stored(m: Memory, bs: seq<Block>, retired: set<nat>, lo: nat, hi: nat)
  {
    0 < lo && Chained(bs, lo, hi) && Linked(m, bs) && RetiredOk(m, bs, retired)
  }

  /** Headers of distinct blocks do not overlap, and none is at NULL. */
  lemma HeadersApart(bs: seq<Block>, lo: nat, hi: nat, i: nat)
    requires 0 < lo && Chained(bs, lo, hi) && i < |bs|
    ensures bs[i].addr > 0
    ensures forall j :: 0 <= j < |bs| && j != i ==> !Overlap(bs[j].addr, bs[i].addr)
  {
    if i > 0 { AddressesAscend(bs, lo, hi, 0, i); }
    forall j | 0 <= j < |bs| && j != i
      ensures !Overlap(bs[j].addr, bs[i].addr)
    {
      if i < j { AddressesAscend(bs, lo, hi, i, j); } else { AddressesAscend(bs, lo, hi, j, i); }
    }
  }

  // ------------------------------------------------------------------ absorbing

  /** The stores with which block p swallows its successor n. */
  function AbsorbMem(m: Memory, p: nat, n: nat): Memory
    requires At(m, p).Known? && At(m, n).Known?
  {
    var after := m[n].next;
    var m1 := Store(m, p, m[p].(payload := m[p].payload + HDR + m[n].payload, next := after));
    var m2 := if At(m1, after).Known? && after != 0 then Store(m1, after, m1[after].(prev := p)) else m1;
    if At(m2, n).Known? then Store(m2, n, m2[n].(magic := 0)) else m2
  }

  /** What is read afterwards at an address that is one of the three or overlaps none of them. */
  lemma AbsorbAt(m: Memory, p: nat, n: nat, x: nat)
    requires At(m, p).Known? && At(m, n).Known?
    requires
      var after := m[n].next;
      && !Overlap(p, n) && (x == p || !Overlap(x, p)) && (x == n || !Overlap(x, n))
      && (after != 0 ==>
            && At(m, after).Known? && !Overlap(after, p) && !Overlap(after, n)
            && (x == after || !Overlap(x, after)))
    ensures
      var after := m[n].next;
      At(AbsorbMem(m, p, n), x) ==
      if x == p then Known(m[p].(payload := m[p].payload + HDR + m[n].payload, next := after))
      else if x == n then Known(m[n].(magic := 0))
      else if x == after && after != 0 then Known(m[after].(prev := p))
      else At(m, x)
  {
  }

  /** The premises of AbsorbAt at any block header or retired header. */
  lemma AbsorbReady(m: Memory, bs: seq<Block>, retired: set<nat>, lo: nat, hi: nat, i: nat)
    requires Stored(m, bs, retired, lo, hi) && i + 1 < |bs|
    ensures At(m, bs[i].addr) == Known(HeaderOf(bs, i)) && At(m, bs[i + 1].addr) == Known(HeaderOf(bs, i + 1))
    ensures !Overlap(bs[i].addr, bs[i + 1].addr)
    ensures i + 2 < |bs| ==> bs[i + 2].addr > 0 && At(m, bs[i + 2].addr) == Known(HeaderOf(bs, i + 2))
    ensures i + 2 < |bs| ==> !Overlap(bs[i + 2].addr, bs[i].addr) && !Overlap(bs[i + 2].addr, bs[i + 1].addr)
  {
    HeadersApart(bs, lo, hi, i);
    HeadersApart(bs, lo, hi, i + 1);
    if i + 2 < |bs| { HeadersApart(bs, lo, hi, i + 2); }
  }

  /** The headers of the merged list in terms of the list before. */
  lemma MergeHeader(bs: seq<Block>, i: nat, j: nat)
    requires i + 1 < |bs| && j < |Merge(bs, i)|
    ensures |Merge(bs, i)| == |bs| - 1 && Merge(bs, i)[j].addr == bs[if j <= i then j else j + 1].addr
    ensures
      HeaderOf(Merge(bs, i), j) ==
      if j == i then
        HeaderOf(bs, i).(payload := bs[i].payload + HDR + bs[i + 1].payload, next := HeaderOf(bs, i + 1).next)
      else if j == i + 1 then HeaderOf(bs, i + 2).(prev := bs[i].addr)
      else HeaderOf(bs, if j < i then j else j + 1)
  {
  }

  lemma AbsorbLinkedAt(m: Memory, bs: seq<Block>, retired: set<nat>, lo: nat, hi: nat, i: nat, j: nat)
    requires Stored(m, bs, retired, lo, hi) && i + 1 < |bs| && j < |Merge(bs, i)|
    ensures At(m, bs[i].addr).Known? && At(m, bs[i + 1].addr).Known?
    ensures At(AbsorbMem(m, bs[i].addr, bs[i + 1].addr), Merge(bs, i)[j].addr) == Known(HeaderOf(Merge(bs, i), j))
  {
    hide AbsorbMem, RetiredOk, Chained, HeaderOf, Merge;
    AbsorbReady(m, bs, retired, lo, hi, i);
    MergeHeader(bs, i, j);
    var j' := if j <= i then j else j + 1;
    HeadersApart(bs, lo, hi, j');
    NextOf(bs, i);
    NextOf(bs, i + 1);
    AbsorbAt(m, bs[i].addr, bs[i + 1].addr, bs[j'].addr);
    assert At(m, bs[j'].addr) == Known(HeaderOf(bs, j'));
  }

  lemma AbsorbRetiredAt(m: Memory, bs: seq<Block>, retired: set<nat>, lo: nat, hi: nat, i: nat, x: nat)
    requires Stored(m, bs, retired, lo, hi) && i + 1 < |bs| && x in retired + {bs[i + 1].addr}
    ensures At(m, bs[i].addr).Known? && At(m, bs[i + 1].addr).Known?
    ensures
      var m' := AbsorbMem(m, bs[i].addr, bs[i + 1].addr);
      At(m', x).Known? && At(m', x).h.magic != MAGIC && Apart(x, Merge(bs, i))
  {
    hide AbsorbMem, HeaderOf, Chained;
    AbsorbReady(m, bs, retired, lo, hi, i);
    HeadersApart(bs, lo, hi, i + 1);
    if x in retired { assert Apart(x, bs); }
    AbsorbNext(m, bs, i);
    AbsorbAt(m, bs[i].addr, bs[i + 1].addr, x);
    var r := Merge(bs, i);
    forall j | 0 <= j < |r|
      ensures !Overlap(x, r[j].addr)
    {
      assert r[j].addr == bs[if j <= i then j else j + 1].addr;
    }
  }

  lemma AbsorbNext(m: Memory, bs: seq<Block>, i: nat)
    requires Linked(m, bs) && i + 1 < |bs|
    ensures At(m, bs[i + 1].addr).Known?
    ensures m[bs[i + 1].addr].next == if i + 2 < |bs| then bs[i + 2].addr else 0
  {
    assert At(m, bs[i + 1].addr) == Known(HeaderOf(bs, i + 1));
  }

  lemma AbsorbStored(m: Memory, bs: seq<Block>, retired: set<nat>, lo: nat, hi: nat, i: nat)
    requires Stored(m, bs, retired, lo, hi) && i + 1 < |bs|
    ensures At(m, bs[i].addr).Known? && At(m, bs[i + 1].addr).Known?
    ensures Stored(AbsorbMem(m, bs[i].addr, bs[i + 1].addr), Merge(bs, i), retired + {bs[i + 1].addr}, lo, hi)
  {
    hide AbsorbMem, HeaderOf, Chained, Apart, Overlap;
    AbsorbReady(m, bs, retired, lo, hi, i);
    MergeChained(bs, i, lo, hi);
    var m' := AbsorbMem(m, bs[i].addr, bs[i + 1].addr);
    var r := Merge(bs, i);
    forall j | 0 <= j < |r|
      ensures At(m', r[j].addr) == Known(HeaderOf(r, j))
    {
      AbsorbLinkedAt(m, bs, retired, lo, hi, i, j);
    }
    forall x | x in retired + {bs[i + 1].addr}
      ensures At(m', x).Known? && At(m', x).h.magic != MAGIC && Apart(x, r)
    {
      AbsorbRetiredAt(m, bs, retired, lo, hi, i, x);
    }
  }

  // ------------------------------------------------------- one flag, one split

  lemma MarkChained(bs: seq<Block>, lo: nat, hi: nat, k: nat, free: bool)
    requires Chained(bs, lo, hi) && k < |bs|
    ensures Chained(bs[k := bs[k].(free := free)], lo, hi)
  {
    var r := bs[k := bs[k].(free := free)];
    forall i | 0 <= i < |r| - 1
      ensures r[i + 1].addr == r[i].End()
    {
      assert bs[i + 1].addr == bs[i].End();
    }
  }

  lemma MarkLinkedAt(m: Memory, bs: seq<Block>, lo: nat, hi: nat, k: nat, free: bool, j: nat)
    requires 0 < lo && Chained(bs, lo, hi) && Linked(m, bs) && k < |bs| && j < |bs|
    ensures At(m, bs[k].addr) == Known(HeaderOf(bs, k))
    ensures At(Store(m, bs[k].addr, m[bs[k].addr].(isFree := free)), bs[j].addr)
         == Known(HeaderOf(bs[k := bs[k].(free := free)], j))
  {
    hide Chained;
    HeadersApart(bs, lo, hi, k);
    assert At(m, bs[k].addr) == Known(HeaderOf(bs, k));
    assert At(m, bs[j].addr) == Known(HeaderOf(bs, j));
  }

  /** Setting the free flag of block k in memory. */
  lemma MarkStored(m: Memory, bs: seq<Block>, retired: set<nat>, lo: nat, hi: nat, k: nat, free: bool)
    requires Stored(m, bs, retired, lo, hi) && k < |bs|
    ensures At(m, bs[k].addr) == Known(HeaderOf(bs, k))
    ensures Stored(Store(m, bs[k].addr, m[bs[k].addr].(isFree := free)), bs[k := bs[k].(free := free)], retired, lo, hi)
  {
    hide Chained, HeaderOf;
    MarkChained(bs, lo, hi, k, free);
    MarkLinkedAt(m, bs, lo, hi, k, free, k);
    var r := bs[k := bs[k].(free := free)];
    var m' := Store(m, bs[k].addr, m[bs[k].addr].(isFree := free));
    forall j | 0 <= j < |r|
      ensures At(m', r[j].addr) == Known(HeaderOf(r, j))
    {
      MarkLinkedAt(m, bs, lo, hi, k, free, j);
    }
    forall x | x in retired
      ensures At(m', x).Known? && At(m', x).h.magic != MAGIC && Apart(x, r)
    {
      assert Apart(x, bs) && !Overlap(x, bs[k].addr);
      forall j | 0 <= j < |r| ensures !Overlap(x, r[j].addr) {
        assert !Overlap(x, bs[j].addr);
      }
    }
  }

  /** Block k cut into a first part of `need` bytes and a free rest. */
  function Split(bs: seq<Block>, k: nat, need: nat): seq<Block>
    requires k < |bs| && bs[k].payload >= need + HDR
  {
    bs[..k] + [bs[k].(payload := need), Block(bs[k].addr + HDR + need, bs[k].payload - need - HDR, true)] + bs[k + 1..]
  }

  lemma TakeIsSplitThenMark(bs: seq<Block>, k: nat, need: nat)
    requires k < |bs| && bs[k].payload >= need
    ensures bs[k].payload < need + HDR + ALIGN ==> Take(bs, k, need) == bs[k := bs[k].(free := false)]
    ensures bs[k].payload >= need + HDR + ALIGN ==>
      Take(bs, k, need) == Split(bs, k, need)[k := Split(bs, k, need)[k].(free := false)]
  {
  }

  /** The stores that cut block b after `need` bytes. */
  function SplitMem(m: Memory, b: nat, need: nat): Memory
    requires At(m, b).Known? && m[b].payload >= need + HDR
  {
    var rem := b + HDR + need;
    var next := m[b].next;
    var m1 := Store(m, rem, Header(next, b, m[b].payload - need - HDR, true, MAGIC));
    var m2 := if At(m1, next).Known? && next != 0 then Store(m1, next, m1[next].(prev := rem)) else m1;
    if At(m2, b).Known? then Store(m2, b, m2[b].(next := rem, payload := need)) else m2
  }

  lemma SplitAt(m: Memory, b: nat, need: nat, x: nat)
    requires At(m, b).Known? && m[b].payload >= need + HDR
    requires
      var rem, next := b + HDR + need, m[b].next;
      && (x == rem || !Overlap(x, rem)) && (x == b || !Overlap(x, b))
      && (next != 0 ==>
            && At(m, next).Known? && !Overlap(next, b) && !Overlap(next, rem)
            && (x == next || !Overlap(x, next)))
    ensures
      var rem, next := b + HDR + need, m[b].next;
      At(SplitMem(m, b, need), x) ==
      if x == rem then Known(Header(next, b, m[b].payload - need - HDR, true, MAGIC))
      else if x == b then Known(m[b].(next := rem, payload := need))
      else if x == next && next != 0 then Known(m[next].(prev := rem))
      else At(m, x)
  {
  }

  lemma SplitChained(bs: seq<Block>, k: nat, need: nat, lo: nat, hi: nat)
    requires Chained(bs, lo, hi) && k < |bs| && bs[k].payload >= need + HDR
    ensures Chained(Split(bs, k, need), lo, hi)
  {
    var r := Split(bs, k, need);
    forall i | 0 <= i < |r| - 1
      ensures r[i + 1].addr == r[i].End()
    {
      if i < k {
        assert bs[i + 1].addr == bs[i].End();
      } else if i > k {
        assert r[i + 1] == bs[i];
        assert i > k + 1 ==> r[i] == bs[i - 1];
        assert bs[i - 1 + 1].addr == bs[i - 1].End();
      }
    }
  }

  /** The new header lies inside block k, clear of every block header. */
  lemma RestInside(bs: seq<Block>, k: nat, need: nat, lo: nat, hi: nat)
    requires 0 < lo && Chained(bs, lo, hi) && k < |bs| && bs[k].payload >= need + HDR
    ensures forall j :: 0 <= j < |bs| ==> !Overlap(bs[j].addr, bs[k].addr + HDR + need)
    ensures forall j :: 0 <= j < |bs| && j != k ==> bs[j].addr != bs[k].addr + HDR + need
  {
    forall j | 0 <= j < |bs|
      ensures !Overlap(bs[j].addr, bs[k].addr + HDR + need)
    {
      if j < k { AddressesAscend(bs, lo, hi, j, k); }
      if j > k { AddressesAscend(bs, lo, hi, k, j); }
    }
  }

  lemma SplitReady(m: Memory, bs: seq<Block>, lo: nat, hi: nat, k: nat, need: nat)
    requires 0 < lo && Chained(bs, lo, hi) && Linked(m, bs) && k < |bs| && bs[k].payload >= need + HDR
    ensures At(m, bs[k].addr) == Known(HeaderOf(bs, k))
    ensures !Overlap(bs[k].addr, bs[k].addr + HDR + need)
    ensures k + 1 < |bs| ==>
      var next := bs[k + 1].addr;
      next > 0 && At(m, next) == Known(HeaderOf(bs, k + 1)) &&
      !Overlap(next, bs[k].addr) && !Overlap(next, bs[k].addr + HDR + need)
  {
    hide HeaderOf, Chained;
    HeadersApart(bs, lo, hi, k);
    RestInside(bs, k, need, lo, hi);
    if k + 1 < |bs| { HeadersApart(bs, lo, hi, k + 1); }
  }

  /** The headers of the split list in terms of the list before. */
  lemma SplitHeader(bs: seq<Block>, k: nat, need: nat, j: nat)
    requires k < |bs| && bs[k].payload >= need + HDR && j < |Split(bs, k, need)|
    ensures
      var r, rem := Split(bs, k, need), bs[k].addr + HDR + need;
      && |r| == |bs| + 1
      && r[j].addr == (if j == k + 1 then rem else bs[if j <= k then j else j - 1].addr)
      && HeaderOf(r, j) ==
         if j == k then HeaderOf(bs, k).(next := rem, payload := need)
         else if j == k + 1 then
           Header(HeaderOf(bs, k).next, bs[k].addr, bs[k].payload - need - HDR, true, MAGIC)
         else if j == k + 2 then HeaderOf(bs, k + 1).(prev := rem)
         else HeaderOf(bs, if j < k then j else j - 1)
  {
  }

  lemma NextOf(bs: seq<Block>, k: nat)
    requires k < |bs|
    ensures HeaderOf(bs, k).next == (if k + 1 < |bs| then bs[k + 1].addr else 0)
    ensures HeaderOf(bs, k).payload == bs[k].payload
  {
  }

  lemma SplitLinkedAt(m: Memory, bs: seq<Block>, lo: nat, hi: nat, k: nat, need: nat, j: nat)
    requires 0 < lo && Chained(bs, lo, hi) && Linked(m, bs) && k < |bs| && bs[k].payload >= need + HDR
    requires j < |Split(bs, k, need)|
    ensures At(m, bs[k].addr) == Known(HeaderOf(bs, k))
    ensures At(SplitMem(m, bs[k].addr, need), Split(bs, k, need)[j].addr) == Known(HeaderOf(Split(bs, k, need), j))
  {
    hide SplitMem, Chained, Overlap, HeaderOf, Split;
    SplitReady(m, bs, lo, hi, k, need);
    SplitHeader(bs, k, need, j);
    NextOf(bs, k);
    if j == k + 1 {
      RestApart(bs, lo, hi, k, need);
      SplitAt(m, bs[k].addr, need, bs[k].addr + HDR + need);
    } else {
      var j' := if j <= k then j else j - 1;
      assert At(m, bs[j'].addr) == Known(HeaderOf(bs, j'));
      BlockApart(bs, lo, hi, k, need, j');
      SplitAt(m, bs[k].addr, need, bs[j'].addr);
    }
  }

  lemma RestApart(bs: seq<Block>, lo: nat, hi: nat, k: nat, need: nat)
    requires 0 < lo && Chained(bs, lo, hi) && k < |bs| && bs[k].payload >= need + HDR
    ensures !Overlap(bs[k].addr + HDR + need, bs[k].addr) && bs[k].addr + HDR + need != bs[k].addr
    ensures k + 1 < |bs| ==> !Overlap(bs[k].addr + HDR + need, bs[k + 1].addr)
  {
    RestInside(bs, k, need, lo, hi);
  }

  lemma BlockApart(bs: seq<Block>, lo: nat, hi: nat, k: nat, need: nat, j: nat)
    requires 0 < lo && Chained(bs, lo, hi) && k < |bs| && bs[k].payload >= need + HDR && j < |bs|
    ensures !Overlap(bs[j].addr, bs[k].addr + HDR + need) && bs[j].addr != bs[k].addr + HDR + need
    ensures j != k ==> !Overlap(bs[j].addr, bs[k].addr) && bs[j].addr != bs[k].addr
    ensures k + 1 < |bs| && j != k + 1 ==> !Overlap(bs[j].addr, bs[k + 1].addr) && bs[j].addr != bs[k + 1].addr
  {
    RestInside(bs, k, need, lo, hi);
    HeadersApart(bs, lo, hi, k);
    if k + 1 < |bs| { HeadersApart(bs, lo, hi, k + 1); }
  }

  /** Retired headers outside the stretch [from, upTo). */
  function Outside(retired: set<nat>, from: nat, upTo: nat): set<nat>
  {
    set x | x in retired && !(from <= x < upTo)
  }

  lemma SplitRetiredAt(m: Memory, bs: seq<Block>, retired: set<nat>, lo: nat, hi: nat, k: nat, need: nat, x: nat)
    requires Stored(m, bs, retired, lo, hi) && k < |bs| && bs[k].payload >= need + HDR
    requires x in Outside(retired, bs[k].addr, bs[k].addr + HDR + need + HDR)
    ensures At(m, bs[k].addr) == Known(HeaderOf(bs, k))
    ensures At(SplitMem(m, bs[k].addr, need), x) == At(m, x) && Apart(x, Split(bs, k, need))
  {
    hide SplitMem, Chained;
    SplitReady(m, bs, lo, hi, k, need);
    assert Apart(x, bs) && !Overlap(x, bs[k].addr);
    SplitAt(m, bs[k].addr, need, x);
    ApartFromSplit(bs, k, need, x);
  }

  lemma ApartFromSplit(bs: seq<Block>, k: nat, need: nat, x: nat)
    requires k < |bs| && bs[k].payload >= need + HDR && Apart(x, bs) && !Overlap(x, bs[k].addr + HDR + need)
    ensures Apart(x, Split(bs, k, need))
  {
    var r := Split(bs, k, need);
    forall j | 0 <= j < |r|
      ensures !Overlap(x, r[j].addr)
    {
      if j != k + 1 { assert r[j].addr == bs[if j <= k then j else j - 1].addr; }
    }
  }

  lemma SplitStored(m: Memory, bs: seq<Block>, retired: set<nat>, lo: nat, hi: nat, k: nat, need: nat)
    requires Stored(m, bs, retired, lo, hi) && k < |bs| && bs[k].payload >= need + HDR
    ensures At(m, bs[k].addr) == Known(HeaderOf(bs, k))
    ensures Stored(SplitMem(m, bs[k].addr, need), Split(bs, k, need),
                   Outside(retired, bs[k].addr, bs[k].addr + HDR + need + HDR), lo, hi)
  {
    hide SplitMem, Chained, Apart, Overlap;
    SplitReady(m, bs, lo, hi, k, need);
    SplitChained(bs, k, need, lo, hi);
    var m' := SplitMem(m, bs[k].addr, need);
    var r := Split(bs, k, need);
    forall j | 0 <= j < |r|
      ensures At(m', r[j].addr) == Known(HeaderOf(r, j))
    {
      SplitLinkedAt(m, bs, lo, hi, k, need, j);
    }
    forall x | x in Outside(retired, bs[k].addr, bs[k].addr + HDR + need + HDR)
      ensures At(m', x).Known? && At(m', x).h.magic != MAGIC && Apart(x, r)
    {
      SplitRetiredAt(m, bs, retired, lo, hi, k, need, x);
    }
  }
}
