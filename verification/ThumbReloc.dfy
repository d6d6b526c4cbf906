/**
 * The Thumb-2 branch relocation of loader/ove_loader.c: re-encoding a BL or B.W
 * (ARMv7-M Architecture Reference Manual, section A7.7.18, encoding T1) against
 * its resolved target, through a veneer when the target is out of reach.
 *
 * Bit fields are written as digits: `(x >> k) & m` with m one less than a power of
 * two is a quotient and a remainder, and an `|` of disjoint fields is their sum.
 */
module ThumbReloc {
  import opened Arith
  import opened Common

  type Halfword = h: int | 0 <= h < 0x1_0000 witness 0

  const REACH: int := 0x0100_0000
  const SPAN: int := 0x0200_0000

  // ------------------------------------------------------------------ encoding

  /** `(~(a ^ b)) & 1` on single bits; its own inverse in a for fixed b. */
  function Same(a: int, b: int): int { if a == b then 1 else 0 }

  /** Bits 24, 23, 22, 21-12 and 11-1 of a word. */
  function S(u: int): int { u / 0x0100_0000 % 2 }
  function I1(u: int): int { u / 0x0080_0000 % 2 }
  function I2(u: int): int { u / 0x0040_0000 % 2 }
  function Imm10(u: int): int { u / 0x1000 % 0x400 }
  function Imm11(u: int): int { u / 2 % 0x800 }

  /** The displacement with the given fields: 25 bits, two's complement. */
  function Join(s: int, i1: int, i2: int, imm10: int, imm11: int): int
  {
    s * 0x0100_0000 + i1 * 0x0080_0000 + i2 * 0x0040_0000 + imm10 * 0x1000 + imm11 * 2 - s * SPAN
  }

  /** The signed displacement encoded in a branch. */
  function Displacement(hw1: Halfword, hw2: Halfword): int
  {
    var s := hw1 / 0x400 % 2;
    Join(s, Same(hw2 / 0x2000 % 2, s), Same(hw2 / 0x800 % 2, s), hw1 % 0x400, hw2 % 0x800)
  }

  function Encode1(hw1: Halfword, want: int): Halfword
  {
    var u := want % WORD;
    hw1 / 0x800 * 0x800 + S(u) * 0x400 + Imm10(u)
  }

  /** Bits 15, 14 and 12 are kept. */
  function Encode2(hw2: Halfword, want: int): Halfword
  {
    var u := want % WORD;
    hw2 / 0x4000 * 0x4000 + hw2 / 0x1000 % 2 * 0x1000
    + Same(I1(u), S(u)) * 0x2000 + Same(I2(u), S(u)) * 0x800 + Imm11(u)
  }

  predicate InReach(want: int) { -REACH <= want <= REACH - 2 }

  /** The fields of a word are the digits of its low 25 bits. */
  lemma Digits(v: int)
    requires 0 <= v < SPAN && v % 2 == 0
    ensures v == S(v) * 0x0100_0000 + I1(v) * 0x0080_0000 + I2(v) * 0x0040_0000 + Imm10(v) * 0x1000 + Imm11(v) * 2
  {
    DivDiv(v, 2, 0x800);
    DivDiv(v, 0x1000, 0x400);
    DivDiv(v, 0x0040_0000, 2);
    DivDiv(v, 0x0080_0000, 2);
    DivModUnique(v / 0x0100_0000, 2, 0, v / 0x0100_0000);
  }

  /** One digit at a time: dividing by d and then by m. */
  lemma DivDiv(x: int, d: int, m: int)
    requires 0 <= x && 0 < d && 0 < m
    ensures d * m > 0 && x / d == m * (x / (d * m)) + x / d % m
  {
    MulAtLeast(d, m);
    var q, r := x / d, x % d;
    var q', r' := q / m, q % m;
    assert x == d * q + r && q == m * q' + r';
    assert d * q == d * (m * q') + d * r' == d * m * q' + d * r';
    DigitBelow(d, m, r', r);
    DivModUnique(x, d * m, q', d * r' + r);
  }

  lemma DigitBelow(d: int, m: int, high: int, low: int)
    requires 0 < d && 0 <= high < m && 0 <= low < d
    ensures 0 <= d * high + low < d * m
  {
    assert d * m == d * high + d * (m - high);
    MulAtLeast(d, m - high);
  }

  lemma SignBit(v: int)
    requires 0 <= v < SPAN
    ensures S(v) == if v < REACH then 0 else 1
  {
  }

  lemma FieldOfLow(u: int, d: int, m: int, t: int)
    requires d > 0 && m > 0
    ensures (u + d * (m * t)) / d % m == u / d % m
  {
    ModShift(u, d, m * t);
    ModShift(u / d, m, t);
  }

  /** High bits do not matter to the fields. */
  lemma FieldsOfLow(u: int, t: int)
    ensures S(u + SPAN * t) == S(u) && I1(u + SPAN * t) == I1(u) && I2(u + SPAN * t) == I2(u)
    ensures Imm10(u + SPAN * t) == Imm10(u) && Imm11(u + SPAN * t) == Imm11(u)
  {
    FieldOfLow(u, 0x0100_0000, 2, t);
    FieldOfLow(u, 0x0080_0000, 2, 2 * t);
    FieldOfLow(u, 0x0040_0000, 2, 4 * t);
    FieldOfLow(u, 0x1000, 0x400, 8 * t);
    FieldOfLow(u, 2, 0x800, 0x2000 * t);
  }

  lemma Ranges(u: int)
    ensures 0 <= S(u) <= 1 && 0 <= I1(u) <= 1 && 0 <= I2(u) <= 1 && 0 <= Imm10(u) < 0x400 && 0 <= Imm11(u) < 0x800
  {
  }

  lemma Unpack1(k: int, s: int, imm10: int)
    requires 0 <= s <= 1 && 0 <= imm10 < 0x400
    ensures
      var h := k * 0x800 + s * 0x400 + imm10;
      h / 0x400 % 2 == s && h % 0x400 == imm10 && h / 0x800 == k
  {
  }

  lemma Unpack2(k: int, b12: int, j1: int, j2: int, imm11: int)
    requires 0 <= b12 <= 1 && 0 <= j1 <= 1 && 0 <= j2 <= 1 && 0 <= imm11 < 0x800
    ensures
      var h := k * 0x4000 + b12 * 0x1000 + j1 * 0x2000 + j2 * 0x800 + imm11;
      h / 0x2000 % 2 == j1 && h / 0x800 % 2 == j2 && h % 0x800 == imm11 && h / 0x4000 == k && h / 0x1000 % 2 == b12
  {
    var h := k * 0x4000 + b12 * 0x1000 + j1 * 0x2000 + j2 * 0x800 + imm11;
    DivModUnique(h, 0x4000, k, b12 * 0x1000 + j1 * 0x2000 + j2 * 0x800 + imm11);
    DivModUnique(h, 0x2000, 2 * k + j1, b12 * 0x1000 + j2 * 0x800 + imm11);
    DivModUnique(h, 0x1000, 4 * k + 2 * j1 + b12, j2 * 0x800 + imm11);
    DivModUnique(h, 0x800, 8 * k + 4 * j1 + 2 * b12 + j2, imm11);
    DivModUnique(2 * k + j1, 2, k, j1);
    DivModUnique(4 * k + 2 * j1 + b12, 2, 2 * k + j1, b12);
    DivModUnique(8 * k + 4 * j1 + 2 * b12 + j2, 2, 4 * k + 2 * j1 + b12, j2);
  }

  /** The low 25 bits of a word, sign-extended. */
  function Wrap25(want: int): int { (want + REACH) % SPAN - REACH }

  /** Re-encoding an even displacement keeps its low 25 bits, and only those. */
  lemma EncodeKeepsLow(hw1: Halfword, hw2: Halfword, want: int)
    requires want % 2 == 0
    ensures Displacement(Encode1(hw1, want), Encode2(hw2, want)) == Wrap25(want)
  {
    hide S, I1, I2, Imm10, Imm11, Wrap25;
    var u := want % WORD;
    Ranges(u);
    Unpack1(hw1 / 0x800, S(u), Imm10(u));
    Unpack2(hw2 / 0x4000, hw2 / 0x1000 % 2, Same(I1(u), S(u)), Same(I2(u), S(u)), Imm11(u));
    JoinBack(want);
  }

  lemma JoinBack(want: int)
    requires want % 2 == 0
    ensures
      var u := want % WORD;
      Join(S(u), I1(u), I2(u), Imm10(u), Imm11(u)) == Wrap25(want)
  {
    hide S, I1, I2, Imm10, Imm11, Wrap25;
    var u := want % WORD;
    var v, t := u % SPAN, u / SPAN;
    assert u == v + SPAN * t;
    assert v % 2 == 0 by {
      assert u == want + 2 * (0x8000_0000 * (0 - want / WORD));
      ModShift(want, 2, 0x8000_0000 * (0 - want / WORD));
      ModShift(v, 2, 0x0100_0000 * t);
    }
    SignBit(v);
    FieldsOfLow(v, t);
    Digits(v);
    assert want == v + SPAN * (t + 128 * (want / WORD));
    WrapOf(want, v, t + 128 * (want / WORD));
  }

  lemma WrapOf(want: int, v: int, k: int)
    requires want == v + SPAN * k && 0 <= v < SPAN
    ensures Wrap25(want) == if v < REACH then v else v - SPAN
  {
    ModShift(v + REACH, SPAN, k);
    NearMod(v + REACH, SPAN);
  }

  lemma WrapInReach(want: int)
    requires -REACH <= want < REACH
    ensures Wrap25(want) == want
  {
    NearMod(want + REACH, SPAN);
  }

  /** Two displacements that wrap to the same one differ by whole spans. */
  lemma WrapSame(a: int, b: int)
    requires Wrap25(a) == Wrap25(b) && -SPAN < a - b < SPAN
    ensures a == b
  {
    ModInjective(a + REACH, b + REACH, SPAN);
  }

  /** Re-encoding an even displacement within reach gives back exactly that displacement. */
  lemma EncodeRoundTrip(hw1: Halfword, hw2: Halfword, want: int)
    requires InReach(want) && want % 2 == 0
    ensures Displacement(Encode1(hw1, want), Encode2(hw2, want)) == want
  {
    hide Displacement, Encode1, Encode2, Wrap25;
    EncodeKeepsLow(hw1, hw2, want);
    WrapInReach(want);
  }

  /** Re-encoding touches no opcode bit. */
  lemma EncodeKeepsOpcode(hw1: Halfword, hw2: Halfword, want: int)
    ensures Encode1(hw1, want) / 0x800 == hw1 / 0x800
    ensures Encode2(hw2, want) / 0x4000 == hw2 / 0x4000 && Encode2(hw2, want) / 0x1000 % 2 == hw2 / 0x1000 % 2
  {
    hide S, I1, I2, Imm10, Imm11;
    var u := want % WORD;
    Ranges(u);
    Unpack1(hw1 / 0x800, S(u), Imm10(u));
    Unpack2(hw2 / 0x4000, hw2 / 0x1000 % 2, Same(I1(u), S(u)), Same(I2(u), S(u)), Imm11(u));
  }

  lemma DisplacementEven(hw1: Halfword, hw2: Halfword)
    ensures Displacement(hw1, hw2) % 2 == 0 && InReach(Displacement(hw1, hw2))
  {
    var s := hw1 / 0x400 % 2;
    JoinEven(s, Same(hw2 / 0x2000 % 2, s), Same(hw2 / 0x800 % 2, s), hw1 % 0x400, hw2 % 0x800);
  }

  lemma JoinEven(s: int, i1: int, i2: int, imm10: int, imm11: int)
    requires 0 <= s < 2 && 0 <= i1 < 2 && 0 <= i2 < 2 && 0 <= imm10 < 0x400 && 0 <= imm11 < 0x800
    ensures Join(s, i1, i2, imm10, imm11) % 2 == 0 && InReach(Join(s, i1, i2, imm10, imm11))
  {
    var half := s * 0x0080_0000 + i1 * 0x0040_0000 + i2 * 0x0020_0000 + imm10 * 0x800 + imm11 - s * 0x0100_0000;
    assert Join(s, i1, i2, imm10, imm11) == 0 + 2 * half;
    ModShift(0, 2, half);
  }

  /**
   * Three encodings worked out from the T1 form of BL in the ARMv7-M manual, with the
   * offset bits S, I1, I2, imm10 and imm11 each set and clear: 0x523456, -4 and -0xe00000.
   */
  lemma KnownBranches()
    ensures Displacement(0xf123, 0xf22b) == 0x0052_3456
    ensures Displacement(0xf7ff, 0xfffe) == -4
    ensures Displacement(0xf600, 0xd000) == -0x00e0_0000
  {
    assert 0xf123 / 0x400 % 2 == 0 && 0xf22b / 0x2000 % 2 == 1 && 0xf22b / 0x800 % 2 == 0;
    assert 0xf7ff / 0x400 % 2 == 1 && 0xfffe / 0x2000 % 2 == 1 && 0xfffe / 0x800 % 2 == 1;
    assert 0xf600 / 0x400 % 2 == 1 && 0xd000 / 0x2000 % 2 == 0 && 0xd000 / 0x800 % 2 == 0;
  }

  // -------------------------------------------------------------------- memory

  /** Little-endian loads from the load region. */
  function Half(st: seq<Byte>, o: nat): Halfword
    requires o + 2 <= |st|
  {
    (st[o] as int) + 0x100 * (st[o + 1] as int)
  }

  function WordAt(st: seq<Byte>, o: nat): int
    requires o + 4 <= |st|
  {
    Half(st, o) + 0x1_0000 * Half(st, o + 2)
  }

  function SetHalf(st: seq<Byte>, o: nat, h: Halfword): (r: seq<Byte>)
    requires o + 2 <= |st|
    ensures |r| == |st| && Half(r, o) == h
    ensures forall i :: 0 <= i < |st| && i != o && i != o + 1 ==> r[i] == st[i]
  {
    st[o := h % 0x100][o + 1 := h / 0x100]
  }

  /** Displacement of the branch at offset o. */
  function BranchAt(st: seq<Byte>, o: nat): int
    requires o + 4 <= |st|
  {
    Displacement(Half(st, o), Half(st, o + 2))
  }

  /**
   * Where the branch at offset o of a region loaded at `base` goes: the program counter
   * reads as its address plus 4.
   */
  function Landing(st: seq<Byte>, base: nat, o: nat): nat
    requires o + 4 <= |st|
  {
    (base + o + 4 + BranchAt(st, o)) % WORD
  }

  /** The two stores that give the branch at o a new displacement. */
  function Patch(st: seq<Byte>, o: nat, want: int): (r: seq<Byte>)
    requires o + 4 <= |st|
    ensures |r| == |st|
    ensures forall i :: 0 <= i < |st| && !(o <= i < o + 4) ==> r[i] == st[i]
  {
    SetHalf(SetHalf(st, o, Encode1(Half(st, o), want)), o + 2, Encode2(Half(st, o + 2), want))
  }

  lemma PatchBranch(st: seq<Byte>, o: nat, want: int)
    requires o + 4 <= |st| && want % 2 == 0
    ensures BranchAt(Patch(st, o, want), o) == Wrap25(want)
  {
    hide Encode1, Encode2, Displacement, Wrap25;
    EncodeKeepsLow(Half(st, o), Half(st, o + 2), want);
  }

  /** `ldr.w pc, [pc, #0]` followed by its literal; the literal is read at the aligned program counter. */
  predicate IsVeneer(st: seq<Byte>, base: nat, o: nat, target: int)
  {
    && o + 8 <= |st| && Half(st, o) == 0xf8df && Half(st, o + 2) == 0xf000
    && (base + o) % 4 == 0 && WordAt(st, o + 4) == target
  }

  /** The stores of `arm_veneer` at offset o. */
  function PutVeneer(st: seq<Byte>, o: nat, target: nat): (r: seq<Byte>)
    requires o + 8 <= |st| && target < WORD
    ensures |r| == |st|
    ensures forall i :: 0 <= i < |st| && !(o <= i < o + 8) ==> r[i] == st[i]
  {
    SetHalf(SetHalf(SetHalf(SetHalf(st, o, 0xf8df), o + 2, 0xf000), o + 4, target % 0x1_0000), o + 6, target / 0x1_0000)
  }

  lemma VeneerWorks(st: seq<Byte>, base: nat, o: nat, target: nat)
    requires o + 8 <= |st| && target < WORD && (base + o) % 4 == 0
    ensures IsVeneer(PutVeneer(st, o, target), base, o, target)
  {
    hide SetHalf;
    var a := SetHalf(st, o, 0xf8df);
    var b := SetHalf(a, o + 2, 0xf000);
    var c := SetHalf(b, o + 4, target % 0x1_0000);
    var d := SetHalf(c, o + 6, target / 0x1_0000);
    assert Half(d, o) == Half(a, o) && Half(d, o + 2) == Half(b, o + 2) && Half(d, o + 4) == Half(c, o + 4);
  }

  // -------------------------------------------------------------- one relocation

  /** `(int32_t)x` */
  function Signed32(x: int): int { (x + 0x8000_0000) % WORD - 0x8000_0000 }

  lemma SignedIs(x: int)
    ensures Signed32(x) % WORD == x % WORD
    ensures -0x8000_0000 <= x < 0x8000_0000 ==> Signed32(x) == x
  {
    var q := (x + 0x8000_0000) / WORD;
    assert Signed32(x) == x + WORD * (0 - q);
    ModShift(x, WORD, 0 - q);
    if -0x8000_0000 <= x < 0x8000_0000 { NearMod(x + 0x8000_0000, WORD); }
  }

  lemma SignedEven(x: int)
    requires x % 2 == 0
    ensures Signed32(x) % 2 == 0
  {
    var q := (x + 0x8000_0000) / WORD;
    assert Signed32(x) == x + 2 * (0x8000_0000 * (0 - q));
    ModShift(x, 2, 0x8000_0000 * (0 - q));
  }

  /** A target with its Thumb bit stripped. */
  function Code(target: nat): (c: nat)
    ensures c % 2 == 0 && c <= target <= c + 1
  {
    target - target % 2
  }

  /** The displacement asked for: from the place at `base + at` to address `to`, plus the addend. */
  function Want(to: int, base: nat, at: nat, addend: int): int { Signed32(to - (base + at)) + addend }

  lemma CodeIs(target: nat)
    ensures Code(target) == target / 2 * 2
  {
  }

  /** The reach is exact: an even displacement is within it if and only if its 25 bits say it all. */
  lemma InReachIff(want: int)
    requires want % 2 == 0
    ensures InReach(want) <==> Wrap25(want) == want
  {
    WrapRange(want);
    if InReach(want) { WrapInReach(want); }
  }

  lemma WantEven(to: int, base: nat, at: nat, addend: int)
    requires to % 2 == 0 && (base + at) % 2 == 0 && addend % 2 == 0
    ensures Want(to, base, at, addend) % 2 == 0
  {
    hide Signed32;
    SignedEven(to - (base + at));
  }

  /** A branch that takes the displacement asked for lands at the address, moved by the addend plus four. */
  lemma WantLands(to: int, base: nat, at: nat, addend: int)
    ensures (base + at + 4 + Want(to, base, at, addend)) % WORD == (to + addend + 4) % WORD
  {
    SignedIs(to - (base + at));
    var q := (Signed32(to - (base + at)) - (to - (base + at))) / WORD;
    MultipleOf(Signed32(to - (base + at)), to - (base + at), WORD);
    ModShift(to + addend + 4, WORD, q);
  }

  lemma MultipleOf(a: int, b: int, n: int)
    requires n > 0 && a % n == b % n
    ensures a == b + n * ((a - b) / n)
  {
    var qa, qb := a / n, b / n;
    assert a - b == n * (qa - qb);
    DivModUnique(a - b, n, qa - qb, 0);
  }

  /** A patched branch lands where it was patched for. */
  lemma PatchLands(st: seq<Byte>, base: nat, at: nat, to: int, addend: int)
    requires at + 4 <= |st| && to % 2 == 0 && (base + at) % 2 == 0 && addend % 2 == 0 &&
      InReach(Want(to, base, at, addend))
    ensures Landing(Patch(st, at, Want(to, base, at, addend)), base, at) == (to + addend + 4) % WORD
  {
    hide Patch, BranchAt, Want, Wrap25;
    WantEven(to, base, at, addend);
    PatchBranch(st, at, Want(to, base, at, addend));
    WrapInReach(Want(to, base, at, addend));
    WantLands(to, base, at, addend);
  }

  /** Inside a region of at most 16 MB every veneer is within reach of every place. */
  lemma VeneerInReach(base: nat, at: nat, o: nat, size: nat)
    requires at + 4 <= size && o + 8 <= size <= REACH
    ensures InReach(Want(base + o, base, at, -4))
  {
    SignedIs(o - at);
  }

  /**
   * A branch sent to a veneer is not checked for reach again. In a region of at most
   * 16 MB, and whatever displacement it had, the patched branch lands on the veneer
   * if and only if its addend is the standard -4.
   */
  lemma OnVeneerIffStandardAddend(st: seq<Byte>, base: nat, at: nat, o: nat, addend: int)
    requires at + 4 <= |st| && o + 8 <= |st| <= REACH && base + |st| < WORD
    requires base % 2 == 0 && at % 2 == 0 && o % 2 == 0 && addend % 2 == 0 && InReach(addend)
    ensures Landing(Patch(st, at, Want(base + o, base, at, addend)), base, at) == base + o <==> addend == -4
  {
    hide Patch, Landing, Wrap25, Signed32;
    var want := Want(base + o, base, at, addend);
    SignedIs(o - at);
    assert want == o - at + addend;
    LandingAfter(st, base, at, want);
    WrapRange(want);
    if Landing(Patch(st, at, want), base, at) == base + o {
      NearMod(base + o, WORD);
      ModInjective(base + at + 4 + Wrap25(want), base + o, WORD);
      WrapInReach(o - at - 4);
      WrapSame(want, o - at - 4);
    }
    if addend == -4 {
      WrapInReach(want);
      NearMod(base + o, WORD);
    }
  }

  lemma WrapRange(want: int)
    ensures -REACH <= Wrap25(want) < REACH
  {
  }

  /**
   * A branch with addend 0, at the start of a region loaded at 0x2000_0000, whose
   * target 0 is out of reach: sent to the veneer behind it, it lands four bytes into
   * the veneer, on the literal.
   */
  lemma ZeroAddendMissesVeneer()
    ensures Misses(FarCall(), 0x2000_0000, 0, 4, 1)
  {
    hide Misses, FarCall;
    FarCallMisses(FarCall(), 0x2000_0000, 0, 4, 1);
  }

  /** The branch at `at` has addend 0 and a target out of reach, and its veneer at `o` is not where it lands. */
  ghost predicate Misses(st: seq<Byte>, base: nat, at: nat, o: nat, target: nat)
  {
    && at + 4 <= |st| && o + 8 <= |st| && target < WORD
    && BranchAt(st, at) == 0 && !InReach(Want(Code(target), base, at, 0))
    && IsVeneer(PutVeneer(st, o, target), base, o, target)
    && Landing(Patch(PutVeneer(st, o, target), at, Want(base + o, base, at, 0)), base, at) == base + o + 4
  }

  lemma FarCallMisses(st: seq<Byte>, base: nat, at: nat, o: nat, target: nat)
    requires |st| == 12 && st[0] == 0x00 && st[1] == 0xf0 && st[2] == 0x00 && st[3] == 0xf8
    requires REACH < base < 0x8000_0000 && base % 4 == 0 && at == 0 && o == 4 && target < 2
    ensures Misses(st, base, at, o, target)
  {
    hide PutVeneer, IsVeneer, Patch, BranchAt, Landing, Want, InReach, Code;
    ZeroBranch(st);
    FarTarget(base, target);
    VeneerWorks(st, base, o, target);
    ZeroAddendLands(PutVeneer(st, o, target), base, at, o);
  }

  /** With addend 0 a branch sent to a veneer lands on the veneer's literal. */
  lemma ZeroAddendLands(st: seq<Byte>, base: nat, at: nat, o: nat)
    requires at + 4 <= o && o + 8 <= |st| <= REACH && base + |st| < WORD && at % 2 == 0 && o % 2 == 0
    ensures Landing(Patch(st, at, Want(base + o, base, at, 0)), base, at) == base + o + 4
  {
    hide Patch, Landing, Signed32;
    SignedIs(o - at);
    LandingAfter(st, base, at, o - at);
    NearMod(base + o + 4, WORD);
  }

  /** A call with displacement 0 and room for one veneer behind it. */
  function FarCall(): (st: seq<Byte>)
    ensures |st| == 12 && st[0] == 0x00 && st[1] == 0xf0 && st[2] == 0x00 && st[3] == 0xf8
  {
    [0x00, 0xf0, 0x00, 0xf8, 0, 0, 0, 0, 0, 0, 0, 0]
  }

  lemma FarTarget(base: nat, target: nat)
    requires REACH < base < 0x8000_0000 && target < 2
    ensures !InReach(Want(Code(target), base, 0, 0))
  {
    SignedIs(0 - base);
  }

  /** Where a branch lands after its displacement is re-encoded. */
  lemma LandingAfter(st: seq<Byte>, base: nat, at: nat, want: int)
    requires at + 4 <= |st| && want % 2 == 0
    ensures Landing(Patch(st, at, want), base, at) == (base + at + 4 + Wrap25(want)) % WORD
    ensures -REACH <= want < REACH ==> Landing(Patch(st, at, want), base, at) == (base + at + 4 + want) % WORD
  {
    hide Patch, BranchAt, Wrap25;
    PatchBranch(st, at, want);
    if -REACH <= want < REACH { WrapInReach(want); }
  }

  lemma ZeroBranch(st: seq<Byte>)
    requires |st| >= 4 && st[0] == 0x00 && st[1] == 0xf0 && st[2] == 0x00 && st[3] == 0xf8
    ensures BranchAt(st, 0) == 0
  {
    assert Half(st, 0) == 0xf000 && Half(st, 2) == 0xf800;
  }

  // ----------------------------------------------------------- all relocations

  /** One R_ARM_THM_CALL or R_ARM_THM_JUMP24: the offset of the place and the resolved symbol. */
  datatype Rel = Rel(at: nat, target: nat)

  /** How a relocated branch gets to its target: in one hop, or through the veneer at an offset. */
  datatype Route = Direct | Via(off: nat)

  /** The branch of r reaches its target along the route; veneers lie in [lo, hi). */
  predicate Arrives(st: seq<Byte>, base: nat, r: Rel, route: Route, lo: nat, hi: nat)
  {
    && r.at + 4 <= |st|
    && match route
       case Direct =>
         Landing(st, base, r.at) % 2 == 0 && Landing(st, base, r.at) <= r.target <= Landing(st, base, r.at) + 1
       case Via(o) => Landing(st, base, r.at) == base + o && IsVeneer(st, base, o, r.target) && lo <= o && o + 8 <= hi
  }

  predicate Apart(a: Rel, b: Rel) { a.at + 4 <= b.at || b.at + 4 <= a.at }

  /** A well-formed place: aligned, in the loaded part, holding a branch with the standard addend. */
  predicate PlaceOk(st: seq<Byte>, r: Rel, loaded: nat)
  {
    r.at % 2 == 0 && r.at + 4 <= loaded <= |st| && r.target < WORD && BranchAt(st, r.at) == -4
  }

  /** Bytes outside the place and the stretch [hi, hi') are the same. */
  ghost predicate ChangedOnly(a: seq<Byte>, b: seq<Byte>, at: nat, hi: nat, hi': nat)
  {
    |a| == |b| && forall i :: 0 <= i < |a| && !(at <= i < at + 4) && !(hi <= i < hi') ==> a[i] == b[i]
  }

  lemma StillArrives(a: seq<Byte>, b: seq<Byte>, base: nat, r: Rel, route: Route, lo: nat, hi: nat, at: nat, hi': nat)
    requires ChangedOnly(a, b, at, hi, hi') && Arrives(a, base, r, route, lo, hi)
    requires at + 4 <= lo <= hi <= hi' && r.at + 4 <= lo && (r.at + 4 <= at || at + 4 <= r.at)
    ensures Arrives(b, base, r, route, lo, hi')
  {
    hide Displacement;
  }

  lemma StillPlace(a: seq<Byte>, b: seq<Byte>, r: Rel, lo: nat, hi: nat, at: nat, hi': nat)
    requires ChangedOnly(a, b, at, hi, hi') && PlaceOk(a, r, lo) && lo <= hi && (r.at + 4 <= at || at + 4 <= r.at)
    ensures PlaceOk(b, r, lo)
  {
    hide Displacement;
  }

  /** Well-formed places that do not overlap, in a region that branches can span. */
  ghost predicate Standard(st: seq<Byte>, rels: seq<Rel>, loaded: nat)
  {
    && |st| <= REACH
    && (forall i :: 0 <= i < |rels| ==> PlaceOk(st, rels[i], loaded))
    && (forall i, j :: 0 <= i < j < |rels| ==> Apart(rels[i], rels[j]))
  }

  lemma BranchWasStandard(st: seq<Byte>, r: Rel, lo: nat)
    requires PlaceOk(st, r, lo)
    ensures r.at + 4 <= |st| && BranchAt(st, r.at) == -4
  {
  }

  /** What one relocation promises for the standard addend is arrival. */
  lemma RouteArrives(st: seq<Byte>, base: nat, r: Rel, route: Route, lo: nat, hi: nat)
    requires r.at + 4 <= |st| && r.target < WORD
    requires route == Direct ==> Landing(st, base, r.at) == (r.target / 2 * 2 - 4 + 4) % WORD
    requires route.Via? ==>
               && Landing(st, base, r.at) == base + route.off && IsVeneer(st, base, route.off, r.target)
               && lo <= route.off && route.off + 8 <= hi
    ensures Arrives(st, base, r, route, lo, hi)
  {
    hide Landing, IsVeneer;
    NearMod(r.target / 2 * 2, WORD);
  }

  /** The veneers of the routes lie one behind the other in [lo, hi). */
  ghost predicate VeneersApart(routes: seq<Route>, lo: nat, hi: nat)
  {
    && lo <= hi
    && (forall i :: 0 <= i < |routes| && routes[i].Via? ==> lo <= routes[i].off && routes[i].off + 8 <= hi)
    && (forall i, j :: 0 <= i < j < |routes| && routes[i].Via? && routes[j].Via? ==>
          routes[i].off + 8 <= routes[j].off)
  }

  /** Below `loaded`, only bytes of relocated places may differ. */
  ghost predicate OnlyPlaces(a: seq<Byte>, b: seq<Byte>, rels: seq<Rel>, loaded: nat)
  {
    && |a| == |b|
    && forall i :: 0 <= i < |a| && i < loaded && (forall r :: r in rels ==> !(r.at <= i < r.at + 4)) ==> a[i] == b[i]
  }

  lemma NoVeneers(lo: nat, st: seq<Byte>, rels: seq<Rel>)
    ensures VeneersApart([], lo, lo) && OnlyPlaces(st, st, rels, lo)
  {
  }

  lemma MoreVeneers(routes: seq<Route>, route: Route, lo: nat, hi: nat, hi': nat)
    requires VeneersApart(routes, lo, hi) && hi <= hi'
    requires route.Via? ==> hi <= route.off && route.off + 8 == hi'
    ensures VeneersApart(routes + [route], lo, hi')
  {
  }

  lemma StillOnlyPlaces(a: seq<Byte>, b: seq<Byte>, c: seq<Byte>, rels: seq<Rel>, i: nat, lo: nat, hi: nat, hi': nat)
    requires OnlyPlaces(a, b, rels, lo) && i < |rels| && ChangedOnly(b, c, rels[i].at, hi, hi') && lo <= hi
    ensures OnlyPlaces(a, c, rels, lo)
  {
    assert rels[i] in rels;
  }

  lemma StillArrivesAt(a: seq<Byte>, b: seq<Byte>, base: nat, rels: seq<Rel>, routes: seq<Route>, i: nat, j: nat,
      lo: nat, hi: nat, hi': nat)
    requires j < i < |rels| && j < |routes| && Apart(rels[j], rels[i])
    requires ChangedOnly(a, b, rels[i].at, hi, hi') && Arrives(a, base, rels[j], routes[j], lo, hi)
    requires rels[i].at + 4 <= lo <= hi <= hi' && rels[j].at + 4 <= lo
    ensures Arrives(b, base, rels[j], routes[j], lo, hi')
  {
    hide Arrives, ChangedOnly;
    StillArrives(a, b, base, rels[j], routes[j], lo, hi, rels[i].at, hi');
  }

  /** `ove_module_t`, the part relocation works on. */
  class Module {
    const base: nat
    const region: array<Byte>
    var used: nat

    ghost predicate Valid()
      reads this
    {
      0 < base && base % 4 == 0 && base + region.Length < WORD && used <= region.Length
    }

    constructor (base: nat, region: array<Byte>, used: nat)
      requires 0 < base && base % 4 == 0 && base + region.Length < WORD && used <= region.Length
      ensures Valid() && this.base == base && this.region == region && this.used == used
    {
      this.base, this.region, this.used := base, region, used;
    }

    /** `memcpy` of a halfword into the region. */
    method StoreHalf(o: nat, h: Halfword)
      requires o + 2 <= region.Length
      modifies region
      ensures region[..] == SetHalf(old(region[..]), o, h)
    {
      region[o] := h % 0x100;
      region[o + 1] := h / 0x100;
    }

    /** `arm_veneer`: the address of a new veneer, or 0 when the tail of the region is too short. */
    method Veneer(target: nat) returns (v: nat)
      requires Valid() && target < WORD
      modifies this`used, region
      ensures Valid()
      ensures v == 0 <==> old(used) + 3 - (old(used) + 3) % 4 + 8 > region.Length
      ensures v == 0 ==> used == old(used) && region[..] == old(region[..])
      ensures v != 0 ==> used <= region.Length && v == base + used - 8 && old(used) <= used - 8 <= old(used) + 3
      ensures v != 0 ==>
        && region[..] == PutVeneer(old(region[..]), used - 8, target)
        && IsVeneer(region[..], base, used - 8, target)
    {
      var off := used + 3 - (used + 3) % 4;
      if off + 8 > region.Length { return 0; }
      VeneerWorks(region[..], base, off, target);
      StoreHalf(off, 0xf8df);
      StoreHalf(off + 2, 0xf000);
      StoreHalf(off + 4, target % 0x1_0000);
      StoreHalf(off + 6, target / 0x1_0000);
      used := off + 8;
      v := base + off;
    }

    /**
     * The Thumb branch case of `apply_rel_arm`. A branch within reach lands at its
     * target moved by its addend plus four. Any other is sent to a new veneer at the
     * end of the used part, which for a region of at most 16 MB it reaches if and
     * only if its addend is the standard -4.
     */
    method Branch(at: nat, target: nat) returns (ok: bool, ghost route: Route)
      requires Valid() && at + 4 <= used && at % 2 == 0 && target < WORD
      modifies this`used, region
      ensures Valid() && old(used) <= used
      ensures !ok ==> used == old(used) && region[..] == old(region[..])
      ensures ok ==> ChangedOnly(old(region[..]), region[..], at, old(used), used)
      ensures
        var addend := BranchAt(old(region[..]), at);
        && (ok <==>
              || InReach(Want(Code(target), base, at, addend))
              || old(used) + 3 - (old(used) + 3) % 4 + 8 <= region.Length)
        && (ok ==> (route == Direct <==> InReach(Want(Code(target), base, at, addend))))
        && (ok && route == Direct ==>
              used == old(used) && Landing(region[..], base, at) == (target / 2 * 2 + addend + 4) % WORD)
        && (ok && route.Via? ==>
              && route.off + 8 == used && old(used) <= route.off <= old(used) + 3
              && IsVeneer(region[..], base, route.off, target)
              && (region.Length <= REACH ==> (Landing(region[..], base, at) == base + route.off <==> addend == -4)))
      ensures ok ==> Half(region[..], at) / 0x800 == Half(old(region[..]), at) / 0x800
      ensures ok ==>
        && Half(region[..], at + 2) / 0x4000 == Half(old(region[..]), at + 2) / 0x4000
        && Half(region[..], at + 2) / 0x1000 % 2 == Half(old(region[..]), at + 2) / 0x1000 % 2
    {
      hide Encode1, Encode2, Displacement, Signed32, InReach, Want, Landing, Patch, PutVeneer, IsVeneer;
      ghost var st := region[..];
      var addend := Displacement(Half(region[..], at), Half(region[..], at + 2));
      DisplacementEven(Half(st, at), Half(st, at + 2));
      var want := Want(Code(target), base, at, addend);
      CodeIs(target);
      if InReach(want) {
        PatchLands(st, base, at, Code(target), addend);
        Rewrite(at, want);
        return true, Direct;
      }
      var v := Veneer(target);
      if v == 0 { return false, Direct; }
      VeneerPath(st, region[..], base, at, used - 8, target, addend);
      Rewrite(at, Want(v, base, at, addend));
      return true, Via(used - 8);
    }

    /**
     * The relocation loop of `load32_arm` over a section's branches: with places
     * that do not overlap, standard addends and a region of at most 16 MB, every
     * branch reaches its own target when all are done, each later relocation and
     * veneer having left the earlier ones intact. The veneers lie one behind the
     * other, behind what was loaded and inside the region.
     */
    method Relocate(rels: seq<Rel>) returns (ok: bool, ghost routes: seq<Route>)
      requires Valid()
      requires forall r :: r in rels ==> r.at % 2 == 0 && r.at + 4 <= used && r.target < WORD
      modifies this`used, region
      ensures Valid() && old(used) <= used
      ensures old(used) + 11 * |rels| <= region.Length ==> ok
      ensures ok ==> |routes| == |rels| && VeneersApart(routes, old(used), used)
      ensures ok ==> OnlyPlaces(old(region[..]), region[..], rels, old(used))
      ensures ok && Standard(old(region[..]), rels, old(used)) ==>
        forall i :: 0 <= i < |rels| ==> Arrives(region[..], base, rels[i], routes[i], old(used), used)
    {
      hide Arrives, PlaceOk, ChangedOnly, OnlyPlaces, VeneersApart, IsVeneer, Landing, BranchAt;
      NoVeneers(used, region[..], rels);
      routes := [];
      ghost var lo, first := used, region[..];
      ghost var standard := Standard(region[..], rels, used);
      for i := 0 to |rels|
        invariant Valid() && lo <= used <= lo + 11 * i && |routes| == i
        invariant VeneersApart(routes, lo, used) && OnlyPlaces(first, region[..], rels, lo)
        invariant standard ==> forall j :: 0 <= j < i ==> Arrives(region[..], base, rels[j], routes[j], lo, used)
        invariant standard ==> forall j :: i <= j < |rels| ==> PlaceOk(region[..], rels[j], lo)
      {
        ghost var st, hi := region[..], used;
        var r := rels[i];
        assert r in rels;
        ghost var route;
        ok, route := Branch(r.at, r.target);
        if !ok { return false, []; }
        MoreVeneers(routes, route, lo, hi, used);
        StillOnlyPlaces(first, st, region[..], rels, i, lo, hi, used);
        if standard {
          BranchWasStandard(st, r, lo);
          RouteArrives(region[..], base, r, route, lo, used);
          forall j | 0 <= j < i ensures Arrives(region[..], base, rels[j], routes[j], lo, used) {
            StillArrivesAt(st, region[..], base, rels, routes, i, j, lo, hi, used);
          }
          forall j | i < j < |rels| ensures PlaceOk(region[..], rels[j], lo) {
            assert Apart(rels[i], rels[j]);
            StillPlace(st, region[..], rels[j], lo, hi, r.at, used);
          }
        }
        routes := routes + [route];
      }
      ok := true;
    }

    /** Give the branch at `at` a new displacement. */
    method Rewrite(at: nat, want: int)
      requires at + 4 <= region.Length
      modifies region
      ensures region[..] == Patch(old(region[..]), at, want)
      ensures Half(region[..], at) / 0x800 == Half(old(region[..]), at) / 0x800
      ensures Half(region[..], at + 2) / 0x4000 == Half(old(region[..]), at + 2) / 0x4000
      ensures Half(region[..], at + 2) / 0x1000 % 2 == Half(old(region[..]), at + 2) / 0x1000 % 2
    {
      hide Encode1, Encode2;
      var hw1, hw2 := Half(region[..], at), Half(region[..], at + 2);
      EncodeKeepsOpcode(hw1, hw2, want);
      StoreHalf(at, Encode1(hw1, want));
      StoreHalf(at + 2, Encode2(hw2, want));
    }
  }

  /** The veneer written behind the loaded part leaves the branch as it was, and stays when the branch is patched. */
  lemma VeneerPath(a: seq<Byte>, b: seq<Byte>, base: nat, at: nat, o: nat, target: nat, addend: int)
    requires at + 4 <= o && o + 8 <= |a| && target < WORD
    requires b == PutVeneer(a, o, target) && IsVeneer(b, base, o, target)
    requires base % 4 == 0 && at % 2 == 0 && base + |a| < WORD && addend % 2 == 0 && InReach(addend)
    ensures Half(b, at) == Half(a, at) && Half(b, at + 2) == Half(a, at + 2)
    ensures
      var p := Patch(b, at, Want(base + o, base, at, addend));
      && IsVeneer(p, base, o, target)
      && (|a| <= REACH ==> (Landing(p, base, at) == base + o <==> addend == -4))
  {
    hide InReach, PutVeneer, Want, Landing, IsVeneer, Patch;
    VeneerAligned(b, base, o, target);
    VeneerStays(b, base, at, o, target, Want(base + o, base, at, addend));
    if |a| <= REACH { OnVeneerIffStandardAddend(b, base, at, o, addend); }
  }

  lemma VeneerAligned(st: seq<Byte>, base: nat, o: nat, target: int)
    requires IsVeneer(st, base, o, target) && base % 4 == 0
    ensures o % 2 == 0
  {
    hide Half, WordAt;
    EvenPart(base, o);
  }

  lemma EvenPart(base: nat, o: nat)
    requires base % 4 == 0 && (base + o) % 4 == 0
    ensures o % 2 == 0
  {
    var a, b := base / 4, (base + o) / 4;
    DivModUnique(o, 2, 2 * (b - a), 0);
  }

  /** Patching a branch in front of a veneer leaves the veneer. */
  lemma VeneerStays(st: seq<Byte>, base: nat, at: nat, o: nat, target: int, want: int)
    requires at + 4 <= o && IsVeneer(st, base, o, target)
    ensures IsVeneer(Patch(st, at, want), base, o, target)
  {
    hide Patch;
    var p := Patch(st, at, want);
    assert Half(p, o) == Half(st, o) && Half(p, o + 2) == Half(st, o + 2);
    assert Half(p, o + 4) == Half(st, o + 4) && Half(p, o + 6) == Half(st, o + 6);
  }
}
