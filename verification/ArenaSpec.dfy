/**
 * What the first-fit arena of backends/common/ove_arena.c does to the sequence
 * of blocks that tiles its region, apart from how the list is stored.
 */
module ArenaSpec {

  /** OVE_ARENA_ALIGN */
  const ALIGN: int := 16

  /** ARENA_HDR: the block header (20 bytes with 32-bit and 32 with 64-bit pointers) rounded up. */
  const HDR: int := 32

  datatype Block = Block(addr: nat, payload: nat, free: bool)
  {
    /** First byte after the block. */
    function End(): nat { addr + HDR + payload }

    /** The pointer handed to the client. */
    function Ptr(): nat { addr + HDR }

    function Footprint(): nat { HDR + payload }
  }

  /** `arena_align` computed in a `size_t` of modulus w. */
  function Round(n: nat, w: nat): nat
    requires w > 0
  {
    var m := (n + (ALIGN - 1)) % w;
    m - m % ALIGN
  }

  /** The payload an allocation of `size` bytes asks for. */
  function Need(size: nat, w: nat): nat
    requires w > 0
  {
    Round(if size == 0 then 1 else size, w)
  }

  /** No gap, no overlap, from lo to hi, with aligned payload sizes. */
  ghost predicate Tiles(bs: seq<Block>, lo: nat, hi: nat)
  {
    Chained(bs, lo, hi) && forall i :: 0 <= i < |bs| ==> bs[i].payload % ALIGN == 0
  }

  ghost predicate Chained(bs: seq<Block>, lo: nat, hi: nat)
  {
    && |bs| > 0 && bs[0].addr == lo && bs[|bs| - 1].End() == hi
    && (forall i :: 0 <= i < |bs| - 1 ==> bs[i + 1].addr == bs[i].End())
  }

  ghost predicate NoFreePair(bs: seq<Block>)
  {
    forall i :: 0 <= i < |bs| - 1 ==> !(bs[i].free && bs[i + 1].free)
  }

  /** Total footprint of the allocated blocks. */
  function Used(bs: seq<Block>): nat
  {
    if bs == [] then 0 else (if bs[0].free then 0 else bs[0].Footprint()) + Used(bs[1..])
  }

  ghost function Live(bs: seq<Block>): set<Block>
  {
    set b | b in bs && !b.free
  }

  // ---------------------------------------------------------------- operations

  /** Index of the first free block of at least `need` bytes, or |bs|. */
  function FirstFit(bs: seq<Block>, need: nat): (k: nat)
    ensures k <= |bs|
    ensures k < |bs| ==> bs[k].free && bs[k].payload >= need
    ensures forall i :: 0 <= i < k ==> !(bs[i].free && bs[i].payload >= need)
  {
    if bs == [] || (bs[0].free && bs[0].payload >= need) then 0 else 1 + FirstFit(bs[1..], need)
  }

  /** Allocate `need` bytes in block k, splitting when the tail can host another block. */
  function Take(bs: seq<Block>, k: nat, need: nat): seq<Block>
    requires k < |bs| && bs[k].payload >= need
  {
    var b := bs[k];
    if b.payload >= need + HDR + ALIGN then
      bs[..k] + [Block(b.addr, need, false), Block(b.addr + HDR + need, b.payload - need - HDR, true)] + bs[k + 1..]
    else
      bs[k := b.(free := false)]
  }

  /** Block i swallows its successor. */
  function Merge(bs: seq<Block>, i: nat): seq<Block>
    requires i + 1 < |bs|
  {
    bs[..i] + [bs[i].(payload := bs[i].payload + bs[i + 1].Footprint())] + bs[i + 2..]
  }

  function MergeIfFree(bs: seq<Block>, i: int): (r: seq<Block>)
  {
    if 0 <= i < |bs| - 1 && bs[i].free && bs[i + 1].free then Merge(bs, i) else bs
  }

  /** Free block k: mark it, then coalesce forward, then backward. */
  function Give(bs: seq<Block>, k: nat): seq<Block>
    requires k < |bs|
  {
    MergeIfFree(MergeIfFree(bs[k := bs[k].(free := true)], k), k - 1)
  }

  // ------------------------------------------------------------------- lemmas

  lemma {:induction false} UsedAppend(a: seq<Block>, b: seq<Block>)
    ensures Used(a + b) == Used(a) + Used(b)
  {
    if a == [] {
      assert a + b == b;
    } else {
      UsedAppend(a[1..], b);
      assert (a + b)[1..] == a[1..] + b;
    }
  }

  /** The blocks on either side of index k contribute independently. */
  lemma UsedAround(bs: seq<Block>, k: nat, n: nat)
    requires k + n <= |bs|
    ensures Used(bs) == Used(bs[..k]) + Used(bs[k..k + n]) + Used(bs[k + n..])
  {
    hide Used;
    var a, b, c := bs[..k], bs[k..k + n], bs[k + n..];
    assert bs == a + (b + c);
    UsedAppend(a, b + c);
    UsedAppend(b, c);
  }

  lemma {:induction false} AddressesAscend(bs: seq<Block>, lo: nat, hi: nat, i: nat, j: nat)
    requires Chained(bs, lo, hi) && i < j < |bs|
    ensures bs[i].End() <= bs[j].addr
    decreases j - i
  {
    if i + 1 < j {
      AddressesAscend(bs, lo, hi, i, j - 1);
      assert bs[j - 1 + 1].addr == bs[j - 1].End();
    } else {
      assert bs[i + 1].addr == bs[i].End();
    }
  }

  lemma WithinRegion(bs: seq<Block>, lo: nat, hi: nat, i: nat)
    requires Tiles(bs, lo, hi) && i < |bs|
    ensures lo <= bs[i].addr && bs[i].End() <= hi
  {
    if i > 0 { AddressesAscend(bs, lo, hi, 0, i); }
    if i < |bs| - 1 { AddressesAscend(bs, lo, hi, i, |bs| - 1); }
  }

  /** Any two blocks, hence any two live payloads, are disjoint. */
  lemma BlocksDisjoint(bs: seq<Block>, lo: nat, hi: nat, i: nat, j: nat)
    requires Tiles(bs, lo, hi) && i < |bs| && j < |bs| && i != j
    ensures bs[i].End() <= bs[j].addr || bs[j].End() <= bs[i].addr
  {
    AddressesAscend(bs, lo, hi, if i < j then i else j, if i < j then j else i);
  }

  // ----------------------------------------------------------- allocation

  lemma TakeTiles(bs: seq<Block>, k: nat, need: nat, lo: nat, hi: nat)
    requires Tiles(bs, lo, hi) && k < |bs| && bs[k].payload >= need && need % ALIGN == 0
    ensures Tiles(Take(bs, k, need), lo, hi)
  {
    var r := Take(bs, k, need);
    if bs[k].payload >= need + HDR + ALIGN {
      forall i | 0 <= i < |r| - 1
        ensures r[i + 1].addr == r[i].End()
      {
        if i < k {
          assert bs[i + 1].addr == bs[i].End();
        } else if i > k {
          assert r[i + 1] == bs[i];
          assert i > k + 1 ==> r[i] == bs[i - 1];
          assert bs[i - 1 + 1].addr == bs[i - 1].End();
        }
      }
      assert r[|r| - 1].End() == hi;
      assert forall i :: k + 2 <= i < |r| ==> r[i] == bs[i - 1];
    }
  }

  lemma TakeNoFreePair(bs: seq<Block>, k: nat, need: nat)
    requires NoFreePair(bs) && k < |bs| && bs[k].free && bs[k].payload >= need
    ensures NoFreePair(Take(bs, k, need))
  {
    var r := Take(bs, k, need);
    if bs[k].payload >= need + HDR + ALIGN {
      forall i | 0 <= i < |r| - 1
        ensures !(r[i].free && r[i + 1].free)
      {
        if i < k {
          assert !(bs[i].free && bs[i + 1].free);
        } else if i > k {
          assert r[i + 1] == bs[i];
          assert i > k + 1 ==> r[i] == bs[i - 1];
          assert !(bs[i - 1].free && bs[i - 1 + 1].free);
        }
      }
    } else {
      forall i | 0 <= i < |r| - 1
        ensures !(r[i].free && r[i + 1].free)
      {
        assert !(bs[i].free && bs[i + 1].free);
      }
    }
  }

  lemma TakeUsed(bs: seq<Block>, k: nat, need: nat)
    requires k < |bs| && bs[k].free && bs[k].payload >= need
    ensures k < |Take(bs, k, need)| && Used(Take(bs, k, need)) == Used(bs) + Take(bs, k, need)[k].Footprint()
  {
    var r := Take(bs, k, need);
    var n := if bs[k].payload >= need + HDR + ALIGN then 2 else 1;
    UsedAround(bs, k, 1);
    UsedAround(r, k, n);
    assert r[..k] == bs[..k] && r[k + n..] == bs[k + 1..];
    assert bs[k..k + 1] == [bs[k]];
    if n == 2 {
      assert r[k..k + 2] == [r[k], r[k + 1]];
      assert Used([r[k], r[k + 1]]) == r[k].Footprint() + Used([r[k + 1]]);
    } else {
      assert r[k..k + 1] == [r[k]];
    }
  }

  /** Allocation adds exactly one live block and leaves every other live block as it was. */
  lemma TakeLive(bs: seq<Block>, k: nat, need: nat)
    requires k < |bs| && bs[k].free && bs[k].payload >= need
    ensures
      var r := Take(bs, k, need);
      k < |r| && r[k].addr == bs[k].addr && r[k].payload >= need && !r[k].free &&
      Live(r) == Live(bs) + {r[k]}
  {
    var r := Take(bs, k, need);
    var n := if bs[k].payload >= need + HDR + ALIGN then 2 else 1;
    assert r == bs[..k] + r[k..k + n] + bs[k + 1..];
    assert bs == bs[..k] + [bs[k]] + bs[k + 1..];
    assert r[k..k + n] == if n == 2 then [r[k], r[k + 1]] else [r[k]];
  }

  /** A block is split whenever the rest can carry a header and one unit, and the rest stays free. */
  lemma TakeTight(bs: seq<Block>, k: nat, need: nat)
    requires k < |bs| && bs[k].payload >= need
    ensures
      var r := Take(bs, k, need);
      && k < |r| && r[k].payload < need + HDR + ALIGN
      && (r[k].payload < bs[k].payload ==> k + 1 < |r| && r[k + 1].free)
  {
  }

  // ------------------------------------------------------------------ freeing

  lemma MergeTiles(bs: seq<Block>, i: nat, lo: nat, hi: nat)
    requires Tiles(bs, lo, hi) && i + 1 < |bs|
    ensures Tiles(Merge(bs, i), lo, hi)
  {
    hide Chained;
    MergeChained(bs, i, lo, hi);
    var r := Merge(bs, i);
    forall j | 0 <= j < |r| ensures r[j].payload % ALIGN == 0 { MergeAligned(bs, i, j); }
  }

  lemma MergeAligned(bs: seq<Block>, i: nat, j: nat)
    requires i + 1 < |bs| && j < |Merge(bs, i)| && forall l :: 0 <= l < |bs| ==> bs[l].payload % ALIGN == 0
    ensures Merge(bs, i)[j].payload % ALIGN == 0
  {
    var r := Merge(bs, i);
    if j == i {
      assert r[j].payload == bs[i].payload + HDR + bs[i + 1].payload;
    } else {
      assert r[j] == bs[if j < i then j else j + 1];
    }
  }

  lemma MergeChained(bs: seq<Block>, i: nat, lo: nat, hi: nat)
    requires Chained(bs, lo, hi) && i + 1 < |bs|
    ensures Chained(Merge(bs, i), lo, hi)
  {
    var r := Merge(bs, i);
    assert bs[i + 1].addr == bs[i].End();
    forall j | 0 <= j < |r| - 1
      ensures r[j + 1].addr == r[j].End()
    {
      if j < i {
        assert bs[j + 1].addr == bs[j].End();
      } else {
        assert r[j + 1] == bs[j + 2];
        assert bs[j + 1 + 1].addr == bs[j + 1].End();
      }
    }
    assert forall j :: i + 1 <= j < |r| ==> r[j] == bs[j + 1];
    assert r[|r| - 1].End() == hi;
  }

  lemma MergeUsed(bs: seq<Block>, i: nat)
    requires i + 1 < |bs| && bs[i].free && bs[i + 1].free
    ensures Used(Merge(bs, i)) == Used(bs)
  {
    var r := Merge(bs, i);
    UsedAround(bs, i, 2);
    UsedAround(r, i, 1);
    assert r[..i] == bs[..i] && r[i + 1..] == bs[i + 2..];
    assert bs[i..i + 2] == [bs[i], bs[i + 1]] && r[i..i + 1] == [r[i]];
    assert Used([bs[i], bs[i + 1]]) == Used([bs[i + 1]]);
  }

  lemma MergeLive(bs: seq<Block>, i: nat)
    requires i + 1 < |bs| && bs[i].free && bs[i + 1].free
    ensures Live(Merge(bs, i)) == Live(bs)
  {
    var r := Merge(bs, i);
    assert bs == bs[..i] + [bs[i], bs[i + 1]] + bs[i + 2..];
    assert r == bs[..i] + [r[i]] + bs[i + 2..];
  }

  /** Marking block k free, before any coalescing. */
  lemma MarkFree(bs: seq<Block>, k: nat, lo: nat, hi: nat)
    requires Tiles(bs, lo, hi) && k < |bs| && !bs[k].free
    ensures
      var a := bs[k := bs[k].(free := true)];
      Tiles(a, lo, hi) && Used(a) + bs[k].Footprint() == Used(bs) && Live(a) == Live(bs) - {bs[k]}
  {
    var a := bs[k := bs[k].(free := true)];
    UsedAround(bs, k, 1);
    UsedAround(a, k, 1);
    assert a[..k] == bs[..k] && a[k + 1..] == bs[k + 1..];
    assert bs[k..k + 1] == [bs[k]] && a[k..k + 1] == [a[k]];
    forall b
      ensures b in Live(a) <==> b in Live(bs) - {bs[k]}
    {
      if b in Live(bs) && b != bs[k] {
        var i :| 0 <= i < |bs| && bs[i] == b;
        assert a[i] == b;
      }
      if b in Live(a) {
        var i :| 0 <= i < |a| && a[i] == b;
        assert i != k && bs[i] == b;
        BlocksDisjoint(bs, lo, hi, i, k);
      }
    }
  }

  lemma MergeIfFreeKeeps(bs: seq<Block>, i: int, lo: nat, hi: nat)
    requires Tiles(bs, lo, hi)
    ensures
      var r := MergeIfFree(bs, i);
      Tiles(r, lo, hi) && Used(r) == Used(bs) && Live(r) == Live(bs)
  {
    if 0 <= i < |bs| - 1 && bs[i].free && bs[i + 1].free {
      MergeTiles(bs, i, lo, hi);
      MergeUsed(bs, i);
      MergeLive(bs, i);
    }
  }

  /** Freeing removes exactly one live block and keeps the tiling. */
  lemma GiveKeeps(bs: seq<Block>, k: nat, lo: nat, hi: nat)
    requires Tiles(bs, lo, hi) && k < |bs| && !bs[k].free
    ensures
      var r := Give(bs, k);
      Tiles(r, lo, hi) && Used(r) + bs[k].Footprint() == Used(bs) && Live(r) == Live(bs) - {bs[k]}
  {
    MarkFree(bs, k, lo, hi);
    var a := bs[k := bs[k].(free := true)];
    MergeIfFreeKeeps(a, k, lo, hi);
    MergeIfFreeKeeps(MergeIfFree(a, k), k - 1, lo, hi);
  }

  /** The only adjacent free pairs, if any, are at the listed positions. */
  ghost predicate PairsOnlyAt(bs: seq<Block>, at: set<int>)
  {
    forall i :: 0 <= i < |bs| - 1 && i !in at ==> !(bs[i].free && bs[i + 1].free)
  }

  lemma GiveNoFreePair(bs: seq<Block>, k: nat)
    requires NoFreePair(bs) && k < |bs| && !bs[k].free
    ensures NoFreePair(Give(bs, k))
  {
    var a := bs[k := bs[k].(free := true)];
    forall i | 0 <= i < |a| - 1 && i !in {k, k - 1}
      ensures !(a[i].free && a[i + 1].free)
    {
      assert !(bs[i].free && bs[i + 1].free);
    }
    assert PairsOnlyAt(a, {k, k - 1});
    var b := MergeIfFree(a, k);
    ForwardClears(bs, k);
    assert PairsOnlyAt(b, {k - 1});
    var c := MergeIfFree(b, k - 1);
    forall i | 0 <= i < |c| - 1
      ensures !(c[i].free && c[i + 1].free)
    {
      if c != b {
        if i < k - 1 {
          assert i !in {k - 1} && !(b[i].free && b[i + 1].free);
        } else {
          assert i + 1 !in {k - 1} && !(b[i + 1].free && b[i + 2].free);
        }
      } else {
        assert i !in {k - 1} ==> !(b[i].free && b[i + 1].free);
      }
    }
  }

  lemma ForwardClears(bs: seq<Block>, k: nat)
    requires NoFreePair(bs) && k < |bs| && !bs[k].free
    ensures PairsOnlyAt(MergeIfFree(bs[k := bs[k].(free := true)], k), {k - 1})
  {
    var a := bs[k := bs[k].(free := true)];
    var b := MergeIfFree(a, k);
    forall i | 0 <= i < |b| - 1 && i !in {k - 1}
      ensures !(b[i].free && b[i + 1].free)
    {
      if b != a {
        if i < k - 1 {
          assert !(bs[i].free && bs[i + 1].free);
        } else {
          assert b[i + 1] == bs[i + 2] && (i > k ==> b[i] == bs[i + 1]);
          assert !(bs[i + 1].free && bs[i + 1 + 1].free);
        }
      } else if i != k {
        assert !(bs[i].free && bs[i + 1].free);
      }
    }
  }
}
