/**
 * Section placement in loader/ove_loader.c: the loop of `load32_arm` that lays
 * each allocatable section into the load region, on the 32-bit target.
 */
module LoaderLayout {
  import opened Arith
  import opened Common

  datatype Kind = Progbits | Nobits | Unloaded

  /** The fields of a section header that placement reads. */
  datatype Section = Section(kind: Kind, alloc: bool, size: nat, align: nat, offset: nat)

  datatype Status = InvalidParam | NoMemory

  datatype Place = Nowhere | At(off: nat)

  datatype Layout = Fail(code: Status) | Placed(places: seq<Place>, used: nat)

  // ----------------------------------------------------------------- alignment

  /** `x & ~m`, bit by bit. */
  function AndNot(x: nat, m: nat): nat
  {
    if x == 0 then 0 else 2 * AndNot(x / 2, m / 2) + if x % 2 == 1 && m % 2 == 0 then 1 else 0
  }

  function Pow2(k: nat): (p: nat)
    ensures p > 0
  {
    if k == 0 then 1 else 2 * Pow2(k - 1)
  }

  predicate IsPow2(a: nat) { exists k :: 0 <= k < 32 && a == Pow2(k) }

  /** Clearing the bits of m takes away at most m. */
  lemma {:induction false} AndNotBounds(x: nat, m: nat)
    ensures AndNot(x, m) <= x <= AndNot(x, m) + m
  {
    if x == 0 {
    } else {
      AndNotBounds(x / 2, m / 2);
    }
  }

  /** Clearing the low k bits rounds down to a multiple of 2^k. */
  lemma {:induction false} AndNotPow2(x: nat, k: nat)
    ensures AndNot(x, Pow2(k) - 1) % Pow2(k) == 0
  {
    if x == 0 || k == 0 {
    } else {
      var p := Pow2(k - 1);
      AndNotPow2(x / 2, k - 1);
      assert (Pow2(k) - 1) / 2 == p - 1 && (Pow2(k) - 1) % 2 == 1;
      assert AndNot(x, Pow2(k) - 1) == 2 * AndNot(x / 2, p - 1);
      DoubleMultiple(AndNot(x / 2, p - 1), p);
    }
  }

  lemma DoubleMultiple(y: nat, p: nat)
    requires p > 0 && y % p == 0
    ensures (2 * y) % (2 * p) == 0
  {
    var q := y / p;
    assert y == p * q;
    assert 2 * y == (2 * p) * q;
    DivModUnique(2 * y, 2 * p, q, 0);
  }

  /** The alignment a header asks for; zero means one. */
  function Alignment(s: Section): (a: nat)
    ensures a > 0
  {
    if s.align == 0 then 1 else s.align
  }

  /** `(off + align - 1) & ~(align - 1)` in a 32-bit `size_t`. */
  function AlignUp(off: nat, a: nat): nat
    requires a > 0
  {
    AndNot((off + a - 1) % WORD, a - 1)
  }

  /** Rounding up does not go below the offset exactly when the addition does not wrap. */
  lemma AlignUpIff(off: nat, a: nat)
    requires 0 < a < WORD && off < WORD
    ensures AlignUp(off, a) >= off <==> off + a - 1 < WORD
  {
    NearMod(off + a - 1, WORD);
    AndNotBounds((off + a - 1) % WORD, a - 1);
  }

  lemma AlignUpAligned(off: nat, a: nat)
    requires IsPow2(a)
    ensures a > 0 && AlignUp(off, a) % a == 0
  {
    hide AndNot, Pow2;
    var k :| 0 <= k < 32 && a == Pow2(k);
    AndNotPow2((off + a - 1) % WORD, k);
  }

  /** Without a wrap, a power-of-two alignment gives the least multiple of it at or above the offset. */
  lemma AlignUpLeast(off: nat, a: nat)
    requires IsPow2(a) && off + a - 1 < WORD
    ensures a > 0 && AlignUp(off, a) % a == 0 && off <= AlignUp(off, a) < off + a
  {
    AlignUpAligned(off, a);
    NearMod(off + a - 1, WORD);
    AndNotBounds(off + a - 1, a - 1);
  }

  // ----------------------------------------------------------------- placement

  predicate Loadable(s: Section) { s.kind != Unloaded && s.alloc && s.size > 0 }

  /** `ld_oob`: written so that no sum can wrap. */
  predicate OutOfBounds(off: nat, size: nat, limit: nat) { size > limit || off > limit - size }

  lemma OutOfBoundsMeans(off: nat, size: nat, limit: nat)
    ensures OutOfBounds(off, size, limit) <==> off + size > limit
  {
  }

  function Prepend(p: Place, l: Layout): Layout
  {
    if l.Fail? then l else Placed([p] + l.places, l.used)
  }

  /** The decisions of the loop from offset off on. */
  function LayOut(secs: seq<Section>, off: nat, limit: nat, imageLen: nat): Layout
  {
    if secs == [] then Placed([], off)
    else if !Loadable(secs[0]) then Prepend(Nowhere, LayOut(secs[1..], off, limit, imageLen))
    else
      var o := AlignUp(off, Alignment(secs[0]));
      if OutOfBounds(o, secs[0].size, limit) then Fail(NoMemory)
      else if secs[0].kind == Progbits && OutOfBounds(secs[0].offset, secs[0].size, imageLen) then Fail(InvalidParam)
      else Prepend(At(o), LayOut(secs[1..], o + secs[0].size, limit, imageLen))
  }

  /** Along the running offset no rounding wraps: what the sections have to satisfy from offset off on. */
  predicate Stays(secs: seq<Section>, off: nat)
  {
    if secs == [] then true
    else if !Loadable(secs[0]) then Stays(secs[1..], off)
    else
      && off + Alignment(secs[0]) - 1 < WORD
      && Stays(secs[1..], AlignUp(off, Alignment(secs[0])) + secs[0].size)
  }

  /** Enough for that, section by section: every alignment is small against 2^32. */
  predicate NoWrap(secs: seq<Section>, limit: nat)
  {
    forall i :: 0 <= i < |secs| ==> limit + Alignment(secs[i]) <= WORD
  }

  /** Placed sections follow one another from off on, in table order, without overlap. */
  ghost predicate InOrder(secs: seq<Section>, places: seq<Place>, off: nat)
  {
    && |places| == |secs|
    && (forall i :: 0 <= i < |secs| && places[i].At? ==> off <= places[i].off)
    && (forall i, j :: 0 <= i < j < |secs| && places[i].At? && places[j].At? ==>
          places[i].off + secs[i].size <= places[j].off)
  }

  /** The fields of a 32-bit section table and a region a 32-bit `size_t` can measure. */
  predicate Words(secs: seq<Section>, limit: nat)
  {
    limit < WORD && forall i :: 0 <= i < |secs| ==> secs[i].align < WORD
  }

  /** Power-of-two alignments in a region of at most 2 GB never wrap. */
  lemma Pow2NeverWraps(secs: seq<Section>, limit: nat)
    requires limit <= 0x8000_0000 && forall i :: 0 <= i < |secs| ==> IsPow2(Alignment(secs[i]))
    ensures NoWrap(secs, limit)
  {
    forall i | 0 <= i < |secs| ensures Alignment(secs[i]) <= 0x8000_0000 {
      var k :| 0 <= k < 32 && Alignment(secs[i]) == Pow2(k);
      Pow2Below(k, 31);
    }
  }

  lemma {:induction false} Pow2Below(k: nat, n: nat)
    requires k <= n
    ensures Pow2(k) <= Pow2(n)
    ensures n == 31 ==> Pow2(n) == 0x8000_0000
  {
    if k == n {
    } else {
      Pow2Below(k, n - 1);
    }
    assert n == 31 ==> Pow2(n) == 0x8000_0000 by {
      assert Pow2(8) == 256;
      assert Pow2(16) == 0x1_0000;
      assert Pow2(24) == 0x0100_0000;
      assert Pow2(31) == 0x8000_0000;
    }
  }

  /** Whatever the alignments: exactly the loadable sections are placed, each inside the region. */
  lemma {:induction false} PlacedInside(secs: seq<Section>, off: nat, limit: nat, imageLen: nat)
    requires LayOut(secs, off, limit, imageLen).Placed?
    ensures
      var l := LayOut(secs, off, limit, imageLen);
      && |l.places| == |secs|
      && forall i :: 0 <= i < |secs| ==>
        && (l.places[i].At? <==>
              (secs[i].kind == Progbits || secs[i].kind == Nobits) && secs[i].alloc && secs[i].size > 0)
        && (l.places[i].At? ==> l.places[i].off + secs[i].size <= limit)
  {
    if secs == [] {
    } else {
      var o := if Loadable(secs[0]) then AlignUp(off, Alignment(secs[0])) + secs[0].size else off;
      PlacedInside(secs[1..], o, limit, imageLen);
    }
  }

  /** Section i is to be loaded, those before it are placed, and it does not fit the region or the image. */
  predicate NoRoomAt(secs: seq<Section>, i: nat, off: nat, limit: nat, imageLen: nat)
    requires i < |secs|
  {
    var l, s := LayOut(secs[..i], off, limit, imageLen), secs[i];
    l.Placed? && (s.kind == Progbits || s.kind == Nobits) && s.alloc && s.size > 0 &&
    AlignUp(l.used, Alignment(s)) + s.size > limit
  }

  predicate NoBytesAt(secs: seq<Section>, i: nat, off: nat, limit: nat, imageLen: nat)
    requires i < |secs|
  {
    var l, s := LayOut(secs[..i], off, limit, imageLen), secs[i];
    l.Placed? && s.kind == Progbits && s.alloc && s.size > 0 && s.offset + s.size > imageLen &&
    AlignUp(l.used, Alignment(s)) + s.size <= limit
  }

  /** Going on from the second section is going on with one section less. */
  lemma RestOfLayout(secs: seq<Section>, i: nat, off: nat, next: nat, limit: nat, imageLen: nat)
    requires 0 < i < |secs|
    requires
      if !Loadable(secs[0]) then next == off
      else
        var o := AlignUp(off, Alignment(secs[0]));
        && next == o + secs[0].size && !OutOfBounds(o, secs[0].size, limit)
        && !(secs[0].kind == Progbits && OutOfBounds(secs[0].offset, secs[0].size, imageLen))
    ensures NoRoomAt(secs, i, off, limit, imageLen) <==> NoRoomAt(secs[1..], i - 1, next, limit, imageLen)
    ensures NoBytesAt(secs, i, off, limit, imageLen) <==> NoBytesAt(secs[1..], i - 1, next, limit, imageLen)
  {
    hide AlignUp;
    assert secs[..i][0] == secs[0] && secs[..i][1..] == secs[1..][..i - 1] && secs[1..][i - 1] == secs[i];
  }

  /** The first section that has no room in the region, or no bytes in the image, decides; nothing else fails. */
  lemma {:induction false} FailsIff(secs: seq<Section>, off: nat, limit: nat, imageLen: nat)
    ensures LayOut(secs, off, limit, imageLen) == Fail(NoMemory) <==>
            exists i :: 0 <= i < |secs| && NoRoomAt(secs, i, off, limit, imageLen)
    ensures LayOut(secs, off, limit, imageLen) == Fail(InvalidParam) <==>
            exists i :: 0 <= i < |secs| && NoBytesAt(secs, i, off, limit, imageLen)
  {
    hide AlignUp, NoRoomAt, NoBytesAt;
    if secs == [] {
    } else {
      FirstFails(secs, off, limit, imageLen);
      var s := secs[0];
      var o := AlignUp(off, Alignment(s));
      var stuck := Loadable(s) &&
        (OutOfBounds(o, s.size, limit) || (s.kind == Progbits && OutOfBounds(s.offset, s.size, imageLen)));
      if stuck {
        forall i | 0 < i < |secs|
          ensures !NoRoomAt(secs, i, off, limit, imageLen) && !NoBytesAt(secs, i, off, limit, imageLen)
        {
          AfterFailure(secs, i, off, limit, imageLen);
        }
      } else {
        var next := if Loadable(s) then o + s.size else off;
        FailsIff(secs[1..], next, limit, imageLen);
        forall i | 0 < i < |secs|
          ensures NoRoomAt(secs, i, off, limit, imageLen) <==> NoRoomAt(secs[1..], i - 1, next, limit, imageLen)
          ensures NoBytesAt(secs, i, off, limit, imageLen) <==> NoBytesAt(secs[1..], i - 1, next, limit, imageLen)
        {
          RestOfLayout(secs, i, off, next, limit, imageLen);
        }
        MovedUp(secs, off, next, limit, imageLen);
      }
    }
  }

  lemma FirstFails(secs: seq<Section>, off: nat, limit: nat, imageLen: nat)
    requires secs != []
    ensures
      var s, o := secs[0], AlignUp(off, Alignment(secs[0]));
      && (NoRoomAt(secs, 0, off, limit, imageLen) <==> Loadable(s) && OutOfBounds(o, s.size, limit))
      && (NoBytesAt(secs, 0, off, limit, imageLen) <==>
            Loadable(s) && !OutOfBounds(o, s.size, limit) &&
            s.kind == Progbits && OutOfBounds(s.offset, s.size, imageLen))
  {
    hide AlignUp;
  }

  lemma AfterFailure(secs: seq<Section>, i: nat, off: nat, limit: nat, imageLen: nat)
    requires 0 < i < |secs| && Loadable(secs[0])
    requires
      || OutOfBounds(AlignUp(off, Alignment(secs[0])), secs[0].size, limit)
      || (secs[0].kind == Progbits && OutOfBounds(secs[0].offset, secs[0].size, imageLen))
    ensures !NoRoomAt(secs, i, off, limit, imageLen) && !NoBytesAt(secs, i, off, limit, imageLen)
  {
    hide AlignUp;
    assert secs[..i][0] == secs[0];
  }

  lemma MovedUp(secs: seq<Section>, off: nat, next: nat, limit: nat, imageLen: nat)
    requires secs != []
    requires !NoRoomAt(secs, 0, off, limit, imageLen) && !NoBytesAt(secs, 0, off, limit, imageLen)
    requires forall i :: 0 < i < |secs| ==>
      (NoRoomAt(secs, i, off, limit, imageLen) <==> NoRoomAt(secs[1..], i - 1, next, limit, imageLen))
    requires forall i :: 0 < i < |secs| ==>
      (NoBytesAt(secs, i, off, limit, imageLen) <==> NoBytesAt(secs[1..], i - 1, next, limit, imageLen))
    ensures (exists i :: 0 <= i < |secs| && NoRoomAt(secs, i, off, limit, imageLen))
            <==> exists i :: 0 <= i < |secs| - 1 && NoRoomAt(secs[1..], i, next, limit, imageLen)
    ensures (exists i :: 0 <= i < |secs| && NoBytesAt(secs, i, off, limit, imageLen))
            <==> exists i :: 0 <= i < |secs| - 1 && NoBytesAt(secs[1..], i, next, limit, imageLen)
  {
    hide NoRoomAt, NoBytesAt;
    if i :| 0 <= i < |secs| - 1 && NoRoomAt(secs[1..], i, next, limit, imageLen) {
      assert NoRoomAt(secs, i + 1, off, limit, imageLen);
    }
    if i :| 0 <= i < |secs| - 1 && NoBytesAt(secs[1..], i, next, limit, imageLen) {
      assert NoBytesAt(secs, i + 1, off, limit, imageLen);
    }
  }

  /** Rounding up that does not wrap never goes below the offset. */
  lemma AlignUpStays(off: nat, a: nat)
    requires 0 < a && off + a - 1 < WORD
    ensures AlignUp(off, a) >= off
  {
    NearMod(off + a - 1, WORD);
    AndNotBounds(off + a - 1, a - 1);
  }

  /** `used` is behind every placed section when no rounding wraps. */
  lemma {:induction false} UsedIsBehind(secs: seq<Section>, off: nat, limit: nat, imageLen: nat)
    requires LayOut(secs, off, limit, imageLen).Placed? && Stays(secs, off) && off <= limit
    ensures
      var l := LayOut(secs, off, limit, imageLen);
      && |l.places| == |secs| && off <= l.used <= limit && InOrder(secs, l.places, off)
      && (forall i :: 0 <= i < |secs| && l.places[i].At? ==> l.places[i].off + secs[i].size <= l.used)
  {
    hide AlignUp;
    if secs == [] {
    } else {
      var s := secs[0];
      if Loadable(s) {
        AlignUpStays(off, Alignment(s));
        UsedIsBehind(secs[1..], AlignUp(off, Alignment(s)) + s.size, limit, imageLen);
      } else {
        UsedIsBehind(secs[1..], off, limit, imageLen);
      }
    }
  }

  /** A table whose sections come out in order has no rounding that wraps. */
  lemma {:induction false} OrderNeedsStays(secs: seq<Section>, off: nat, limit: nat, imageLen: nat)
    requires LayOut(secs, off, limit, imageLen).Placed? && Words(secs, limit) && off <= limit
    requires InOrder(secs, LayOut(secs, off, limit, imageLen).places, off)
    ensures Stays(secs, off)
  {
    hide AlignUp;
    if secs == [] {
    } else {
      var s := secs[0];
      var places := LayOut(secs, off, limit, imageLen).places;
      if Loadable(s) {
        var o := AlignUp(off, Alignment(s));
        assert places[0] == At(o);
        AlignUpIff(off, Alignment(s));
        InOrderRest(secs, places, off, o + s.size);
        OrderNeedsStays(secs[1..], o + s.size, limit, imageLen);
      } else {
        InOrderRest(secs, places, off, off);
        OrderNeedsStays(secs[1..], off, limit, imageLen);
      }
    }
  }

  lemma InOrderRest(secs: seq<Section>, places: seq<Place>, off: nat, next: nat)
    requires secs != [] && InOrder(secs, places, off)
    requires if places[0].At? then next == places[0].off + secs[0].size else next == off
    ensures InOrder(secs[1..], places[1..], next)
  {
    forall j | 0 <= j < |secs| - 1 && places[1..][j].At? ensures next <= places[1..][j].off {
      assert places[j + 1].At?;
    }
  }

  /**
   * For every table that is placed at all: the sections follow one another in table
   * order without overlap if and only if no rounding along the way wraps.
   */
  lemma PlacedInOrderIff(secs: seq<Section>, limit: nat, imageLen: nat)
    requires LayOut(secs, 0, limit, imageLen).Placed? && Words(secs, limit)
    ensures InOrder(secs, LayOut(secs, 0, limit, imageLen).places, 0) <==> Stays(secs, 0)
  {
    hide LayOut, InOrder, Stays;
    if Stays(secs, 0) { UsedIsBehind(secs, 0, limit, imageLen); }
    if InOrder(secs, LayOut(secs, 0, limit, imageLen).places, 0) { OrderNeedsStays(secs, 0, limit, imageLen); }
  }

  /** Small alignments are enough, for any table that is placed. */
  lemma {:induction false} NoWrapStays(secs: seq<Section>, off: nat, limit: nat, imageLen: nat)
    requires LayOut(secs, off, limit, imageLen).Placed? && NoWrap(secs, limit) && off <= limit
    ensures Stays(secs, off)
  {
    hide AlignUp;
    if secs == [] {
    } else {
      assert limit + Alignment(secs[0]) <= WORD;
      var o := if Loadable(secs[0]) then AlignUp(off, Alignment(secs[0])) + secs[0].size else off;
      NoWrapStays(secs[1..], o, limit, imageLen);
    }
  }

  /** Power-of-two alignments in a region of at most 2 GB: always in order, `used` behind every section. */
  lemma PlacedAscending(secs: seq<Section>, limit: nat, imageLen: nat)
    requires LayOut(secs, 0, limit, imageLen).Placed? && limit <= 0x8000_0000
    requires forall i :: 0 <= i < |secs| ==> IsPow2(Alignment(secs[i]))
    ensures
      var l := LayOut(secs, 0, limit, imageLen);
      && |l.places| == |secs| && l.used <= limit && InOrder(secs, l.places, 0)
      && (forall i :: 0 <= i < |secs| && l.places[i].At? ==> l.places[i].off + secs[i].size <= l.used)
  {
    hide LayOut, InOrder, Stays, NoWrap, IsPow2;
    Pow2NeverWraps(secs, limit);
    NoWrapStays(secs, 0, limit, imageLen);
    UsedIsBehind(secs, 0, limit, imageLen);
  }

  /**
   * A rounding that wraps may by chance fall into a gap, out of order and without
   * overlap, so order is the property that the condition decides exactly.
   */
  lemma WrappedIntoGap()
    ensures
      var a := Section(Nobits, true, 4, 1, 0);
      var b := Section(Nobits, true, 8, 32, 0);
      var c := Section(Nobits, true, 8, 0xffff_ffe1, 0);
      LayOut([a, b, c], 0, 64, 0) == Placed([At(0), At(32), At(8)], 16)
  {
    var a := Section(Nobits, true, 4, 1, 0);
    var b := Section(Nobits, true, 8, 32, 0);
    var c := Section(Nobits, true, 8, 0xffff_ffe1, 0);
    assert AlignUp(0, 1) == 0;
    GapRounding();
    assert [a, b, c][1..] == [b, c] && [b, c][1..] == [c] && [c][1..] == [];
    assert LayOut([c], 40, 64, 0) == Placed([At(8)], 16);
    assert LayOut([b, c], 4, 64, 0) == Placed([At(32), At(8)], 16);
  }

  lemma GapRounding()
    ensures AlignUp(4, 32) == 32 && AlignUp(40, 0xffff_ffe1) == 8
  {
    assert AndNot(4, 3) == 4;
    assert AndNot(8, 7) == 8;
    assert AndNot(17, 15) == 16;
    assert AndNot(35, 31) == 32;
    assert (40 + 0xffff_ffe1 - 1) % WORD == 8;
    assert AndNot(2, 0x3fff_fff8) == 2;
    assert AndNot(4, 0x7fff_fff0) == 4;
    assert AndNot(8, 0xffff_ffe0) == 8;
  }

  /** Power-of-two alignments are honoured relative to the region. */
  lemma {:induction false} PlacedAligned(secs: seq<Section>, off: nat, limit: nat, imageLen: nat)
    requires LayOut(secs, off, limit, imageLen).Placed?
    ensures
      var l := LayOut(secs, off, limit, imageLen);
      && |l.places| == |secs|
      && forall i :: 0 <= i < |secs| && l.places[i].At? && IsPow2(Alignment(secs[i])) ==>
        l.places[i].off % Alignment(secs[i]) == 0
  {
    if secs == [] {
    } else {
      var s := secs[0];
      if Loadable(s) {
        if IsPow2(Alignment(s)) { AlignUpAligned(off, Alignment(s)); }
        PlacedAligned(secs[1..], AlignUp(off, Alignment(s)) + s.size, limit, imageLen);
      } else {
        PlacedAligned(secs[1..], off, limit, imageLen);
      }
    }
  }

  /**
   * The alignment field is not checked. A section asking for alignment 2^32 - 1
   * after a 16-byte one is placed on top of it.
   */
  lemma UncheckedAlignmentOverlaps()
    ensures
      var a := Section(Nobits, true, 16, 1, 0);
      var b := Section(Nobits, true, 8, 0xffff_ffff, 0);
      LayOut([a, b], 0, 64, 0) == Placed([At(0), At(0)], 8)
  {
    var a := Section(Nobits, true, 16, 1, 0);
    var b := Section(Nobits, true, 8, 0xffff_ffff, 0);
    assert AlignUp(0, 1) == 0;
    LargestAlignmentWraps();
    assert [a, b][1..] == [b] && [b][1..] == [];
    assert LayOut([b], 16, 64, 0) == Placed([At(0)], 8);
  }

  lemma LargestAlignmentWraps()
    ensures AlignUp(16, 0xffff_ffff) == 0
  {
    assert (16 + 0xffff_ffff - 1) % WORD == 14;
    assert AndNot(1, 0x1fff_ffff) == 0;
    assert AndNot(3, 0x3fff_ffff) == 0;
    assert AndNot(7, 0x7fff_ffff) == 0;
    assert AndNot(14, 0xffff_fffe) == 0;
  }

  // -------------------------------------------------------------------- the loop

  /** The bytes a placed section must have in the region. */
  predicate Holds(st: seq<Byte>, s: Section, p: Place, image: seq<Byte>)
  {
    p.At? ==>
      && p.off + s.size <= |st|
      && (if s.kind == Nobits then forall i :: p.off <= i < p.off + s.size ==> st[i] == 0
          else s.offset + s.size <= |image| && st[p.off..p.off + s.size] == image[s.offset..s.offset + s.size])
  }

  /** `memset` or `memcpy` of one section. */
  method Fill(region: array<Byte>, off: nat, s: Section, image: seq<Byte>)
    requires off + s.size <= region.Length && (s.kind != Nobits ==> s.offset + s.size <= |image|)
    modifies region
    ensures Holds(region[..], s, At(off), image)
    ensures forall i :: 0 <= i < region.Length && !(off <= i < off + s.size) ==> region[i] == old(region[i])
  {
    for k := 0 to s.size
      invariant forall i :: 0 <= i < region.Length && !(off <= i < off + s.size) ==> region[i] == old(region[i])
      invariant forall i :: off <= i < off + k ==>
        region[i] == if s.kind == Nobits then 0 else image[s.offset + (i - off)]
    {
      region[off + k] := if s.kind == Nobits then 0 else image[s.offset + k];
    }
    if s.kind != Nobits {
      ghost var got, want := region[off..off + s.size], image[s.offset..s.offset + s.size];
      forall j | 0 <= j < s.size ensures got[j] == want[j] { assert region[off + j] == image[s.offset + j]; }
      assert got == want;
    }
  }

  /**
   * The placement loop: its decisions are those of LayOut, and when no rounding
   * along the way wraps every loaded section still holds its bytes at the end.
   */
  method PlaceSections(secs: seq<Section>, image: seq<Byte>, region: array<Byte>) returns (l: Layout)
    modifies region
    ensures l == LayOut(secs, 0, region.Length, |image|)
    ensures l.Placed? && Stays(secs, 0) ==>
      && |l.places| == |secs| && l.used <= region.Length
      && (forall i :: 0 <= i < |secs| ==> Holds(region[..], secs[i], l.places[i], image))
      && (forall i :: 0 <= i < |secs| && l.places[i].At? ==> l.places[i].off + secs[i].size <= l.used)
  {
    hide AllHold, LayOut, AlignUp, PrependAll, Stays;
    var off: nat := 0;
    var places: seq<Place> := [];
    ghost var clean := Stays(secs, 0);
    NoneHold(region[..], secs, image);
    PrependNone(LayOut(secs, 0, region.Length, |image|));
    assert secs[0..] == secs;
    for i := 0 to |secs|
      invariant |places| == i
      invariant LayOut(secs, 0, region.Length, |image|)
        == PrependAll(places, LayOut(secs[i..], off, region.Length, |image|))
      invariant clean ==> Stays(secs[i..], off) && AllHold(region[..], secs, places, image, off)
    {
      var s := secs[i];
      LayOutNext(secs, i, off, region.Length, |image|);
      StaysNext(secs, i, off);
      if Loadable(s) {
        var o := AlignUp(off, Alignment(s));
        if OutOfBounds(o, s.size, region.Length) {
          PrependAllFail(places, Fail(NoMemory));
          return Fail(NoMemory);
        }
        if s.kind == Progbits && OutOfBounds(s.offset, s.size, |image|) {
          PrependAllFail(places, Fail(InvalidParam));
          return Fail(InvalidParam);
        }
        ghost var before := region[..];
        Fill(region, o, s, image);
        if clean { AllStillHold(before, region[..], secs, places, image, off); }
        PrependAllMore(places, At(o), LayOut(secs[i + 1..], o + s.size, region.Length, |image|));
        places := places + [At(o)];
        off := o + s.size;
      } else {
        PrependAllMore(places, Nowhere, LayOut(secs[i + 1..], off, region.Length, |image|));
        if clean { NowhereHolds(region[..], secs, places, image, off); }
        places := places + [Nowhere];
      }
    }
    LayOutEnd(secs, off, region.Length, |image|);
    PrependAllDone(places, off);
    l := Placed(places, off);
    if clean { AllHoldMeans(region[..], secs, places, image, off); }
  }

  /** The sections placed so far hold their bytes and lie below off. */
  ghost predicate AllHold(st: seq<Byte>, secs: seq<Section>, places: seq<Place>, image: seq<Byte>, off: nat)
  {
    && |places| <= |secs| && off <= |st|
    && forall j :: 0 <= j < |places| ==>
      Holds(st, secs[j], places[j], image) && (places[j].At? ==> places[j].off + secs[j].size <= off)
  }

  lemma AllHoldMeans(st: seq<Byte>, secs: seq<Section>, places: seq<Place>, image: seq<Byte>, off: nat)
    requires AllHold(st, secs, places, image, off) && |places| == |secs|
    ensures off <= |st| && forall i :: 0 <= i < |secs| ==> Holds(st, secs[i], places[i], image)
    ensures forall i :: 0 <= i < |secs| && places[i].At? ==> places[i].off + secs[i].size <= off
  {
  }

  lemma NoneHold(st: seq<Byte>, secs: seq<Section>, image: seq<Byte>)
    ensures AllHold(st, secs, [], image, 0)
  {
  }

  /** Writing the next section behind the others leaves them intact. */
  lemma AllStillHold(a: seq<Byte>, b: seq<Byte>, secs: seq<Section>, places: seq<Place>, image: seq<Byte>, off: nat)
    requires AllHold(a, secs, places, image, off) && |places| < |secs| && |a| == |b|
    requires off + Alignment(secs[|places|]) - 1 < WORD
    requires
      var s := secs[|places|];
      var o := AlignUp(off, Alignment(s));
      && 0 < s.size && o + s.size <= |b| && Holds(b, s, At(o), image)
      && forall i :: 0 <= i < |a| && !(o <= i < o + s.size) ==> b[i] == a[i]
    ensures
      var s := secs[|places|];
      var o := AlignUp(off, Alignment(s));
      AllHold(b, secs, places + [At(o)], image, o + s.size)
  {
    hide Holds, AlignUp;
    var s := secs[|places|];
    var o := AlignUp(off, Alignment(s));
    AlignUpStays(off, Alignment(s));
    forall j | 0 <= j < |places| ensures Holds(b, secs[j], places[j], image) {
      StillHolds(a, b, secs[j], places[j], image, o, s.size);
    }
  }

  lemma NowhereHolds(st: seq<Byte>, secs: seq<Section>, places: seq<Place>, image: seq<Byte>, off: nat)
    requires AllHold(st, secs, places, image, off) && |places| < |secs|
    ensures AllHold(st, secs, places + [Nowhere], image, off)
  {
    hide Holds;
    assert Holds(st, secs[|places|], Nowhere, image) by { NothingToHold(st, secs[|places|], image); }
  }

  lemma NothingToHold(st: seq<Byte>, s: Section, image: seq<Byte>)
    ensures Holds(st, s, Nowhere, image)
  {
  }

  /** One turn of the loop in LayOut's terms. */
  lemma LayOutNext(secs: seq<Section>, i: nat, off: nat, limit: nat, imageLen: nat)
    requires i < |secs|
    ensures
      var s, o := secs[i], AlignUp(off, Alignment(secs[i]));
      LayOut(secs[i..], off, limit, imageLen) ==
      if !Loadable(s) then Prepend(Nowhere, LayOut(secs[i + 1..], off, limit, imageLen))
      else if OutOfBounds(o, s.size, limit) then Fail(NoMemory)
      else if s.kind == Progbits && OutOfBounds(s.offset, s.size, imageLen) then Fail(InvalidParam)
      else Prepend(At(o), LayOut(secs[i + 1..], o + s.size, limit, imageLen))
  {
    hide AlignUp;
    assert secs[i..][0] == secs[i] && secs[i..][1..] == secs[i + 1..];
  }

  lemma StaysNext(secs: seq<Section>, i: nat, off: nat)
    requires i < |secs|
    ensures Stays(secs[i..], off) <==>
            if !Loadable(secs[i]) then Stays(secs[i + 1..], off)
            else
              && off + Alignment(secs[i]) - 1 < WORD
              && Stays(secs[i + 1..], AlignUp(off, Alignment(secs[i])) + secs[i].size)
  {
    hide AlignUp;
    assert secs[i..][0] == secs[i] && secs[i..][1..] == secs[i + 1..];
  }

  lemma LayOutEnd(secs: seq<Section>, off: nat, limit: nat, imageLen: nat)
    ensures LayOut(secs[|secs|..], off, limit, imageLen) == Placed([], off)
  {
  }

  lemma PrependNone(l: Layout)
    ensures PrependAll([], l) == l
  {
    if l.Placed? { assert [] + l.places == l.places; }
  }

  function PrependAll(ps: seq<Place>, l: Layout): Layout
  {
    if l.Fail? then l else Placed(ps + l.places, l.used)
  }

  lemma PrependAllFail(ps: seq<Place>, l: Layout)
    requires l.Fail?
    ensures PrependAll(ps, l) == l
  {
  }

  lemma PrependAllMore(ps: seq<Place>, p: Place, l: Layout)
    ensures PrependAll(ps, Prepend(p, l)) == PrependAll(ps + [p], l)
  {
    if l.Placed? { assert ps + ([p] + l.places) == (ps + [p]) + l.places; }
  }

  lemma PrependAllDone(ps: seq<Place>, off: nat)
    ensures PrependAll(ps, Placed([], off)) == Placed(ps, off)
  {
    assert ps + [] == ps;
  }

  lemma StillHolds(a: seq<Byte>, b: seq<Byte>, s: Section, p: Place, image: seq<Byte>, o: nat, size: nat)
    requires |a| == |b| && (forall i :: 0 <= i < |a| && !(o <= i < o + size) ==> b[i] == a[i])
    requires Holds(a, s, p, image) && (p.At? ==> p.off + s.size <= o)
    ensures Holds(b, s, p, image)
  {
    if p.At? { assert b[p.off..p.off + s.size] == a[p.off..p.off + s.size]; }
  }
}
