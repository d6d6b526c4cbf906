/**
 * The file operations of backends/freertos/freertos_fs.c over a FatFs file, with
 * the positional reads and writes that
 * backends/common/lxp_ove_storage_adapter.c builds on them. The code keeps its own
 * position and moves the FatFs cursor lazily; here it is proved to behave as a
 * plain sequence of bytes with a position.
 */
module FatFile {
  import opened Arith
  import opened Common

  // ------------------------------------------------------------- the plain file

  datatype File = File(bytes: seq<Byte>, pos: nat)

  function Min(a: nat, b: nat): nat { if a < b then a else b }

  function Zeros(n: nat): (z: seq<Byte>)
    ensures |z| == n && forall i :: 0 <= i < n ==> z[i] == 0
  {
    seq(n, _ => 0)
  }

  /** Extended with zeros to at least n bytes. */
  function Pad(bytes: seq<Byte>, n: nat): (r: seq<Byte>)
    ensures |r| == if n <= |bytes| then |bytes| else n
    ensures forall i :: 0 <= i < |r| ==> r[i] == if i < |bytes| then bytes[i] else 0
  {
    if n <= |bytes| then bytes else bytes + Zeros(n - |bytes|)
  }

  /** Data written over bytes at pos, which is not past the end. */
  function Overlay(bytes: seq<Byte>, pos: nat, data: seq<Byte>): (r: seq<Byte>)
    requires pos <= |bytes|
    ensures |r| == if pos + |data| <= |bytes| then |bytes| else pos + |data|
    ensures forall i :: 0 <= i < |r| ==> r[i] == if pos <= i < pos + |data| then data[i - pos] else bytes[i]
  {
    bytes[..pos] + data + if pos + |data| <= |bytes| then bytes[pos + |data|..] else []
  }

  function ReadSpec(f: File, count: nat): seq<Byte>
  {
    if f.pos >= |f.bytes| then [] else f.bytes[f.pos..f.pos + Min(count, |f.bytes| - f.pos)]
  }

  /** Writing at the position, with zeros in any gap behind the old end. */
  function WriteSpec(f: File, data: seq<Byte>): File
  {
    File(Overlay(Pad(f.bytes, f.pos), f.pos, data), f.pos + |data|)
  }

  /** Writing in append mode: the position first moves to the end. */
  function AppendSpec(f: File, data: seq<Byte>): File
  {
    File(f.bytes + data, |f.bytes| + |data|)
  }

  function TruncateSpec(f: File, n: nat): File
  {
    f.(bytes := if n <= |f.bytes| then f.bytes[..n] else Pad(f.bytes, n))
  }

  /** Truncating sets the length, keeps the bytes below it, reads as zero where it grows, and moves no position. */
  lemma TruncateMeans(f: File, n: nat, i: nat)
    requires i < n
    ensures |TruncateSpec(f, n).bytes| == n && TruncateSpec(f, n).pos == f.pos
    ensures TruncateSpec(f, n).bytes[i] == if i < |f.bytes| then f.bytes[i] else 0
  {
  }

  datatype Whence = Set | Cur | End | Bad

  function SeekBase(f: File, whence: Whence): int
  {
    match whence
    case Set => 0
    case Cur => f.pos
    case End => |f.bytes|
    case Bad => 0
  }

  // ------------------------------------------------------------------ FatFs

  datatype FResult = FrOk | FrError

  /**
   * A FatFs file object: contents and cursor. Each call may fail; a write may come
   * up short, and a seek past the end fills with whatever the clusters held. On a
   * healthy medium with room, calls do not fail.
   */
  class NativeFile {
    var data: seq<Byte>
    var cursor: nat
    /** Largest size FSIZE_t can express. */
    const sizeMax: nat
    const healthy: bool

    ghost predicate Valid()
      reads this
    {
      cursor <= |data| <= sizeMax
    }

    constructor (sizeMax: nat, healthy: bool)
      ensures Valid() && data == [] && cursor == 0 && this.sizeMax == sizeMax && this.healthy == healthy
    {
      this.sizeMax, this.healthy := sizeMax, healthy;
      data, cursor := [], 0;
    }

    /** `f_lseek` */
    method Lseek(ofs: nat) returns (res: FResult)
      requires Valid()
      modifies this
      ensures Valid() && |old(data)| <= |data| && data[..|old(data)|] == old(data)
      ensures ofs <= |old(data)| ==> data == old(data)
      ensures ofs <= |old(data)| && res == FrOk ==> cursor == ofs
      ensures healthy ==> res == FrOk
    {
      if !healthy { if * { return FrError; } }
      if ofs <= |data| {
        cursor := ofs;
      } else {
        var junk: seq<Byte> := *;
        if |data| + |junk| <= ofs <= sizeMax { data := data + junk; }
        cursor := |data|;
      }
      res := FrOk;
    }

    /** `f_read` */
    method Read(count: nat) returns (res: FResult, bytes: seq<Byte>)
      requires Valid()
      modifies this`cursor
      ensures Valid()
      ensures res == FrOk ==>
        && bytes == old(data[cursor..cursor + Min(count, |data| - cursor)])
        && cursor == old(cursor) + |bytes|
      ensures healthy ==> res == FrOk
    {
      if !healthy { if * { return FrError, []; } }
      bytes := data[cursor..cursor + Min(count, |data| - cursor)];
      cursor := cursor + |bytes|;
      res := FrOk;
    }

    /** `f_write`: the bytes written, all or a first part, go over the contents at the cursor. */
    method Write(bytes: seq<Byte>) returns (res: FResult, written: nat)
      requires Valid()
      modifies this
      ensures Valid() && written <= |bytes| && data == Overlay(old(data), old(cursor), bytes[..written])
      ensures res == FrOk ==> cursor == old(cursor) + written
      ensures healthy ==> res == FrOk && (old(cursor) + |bytes| <= sizeMax ==> written == |bytes|)
    {
      if healthy && cursor + |bytes| <= sizeMax {
        written := |bytes|;
      } else {
        written :| written <= |bytes| && (written == 0 || cursor + written <= sizeMax);
      }
      data := Overlay(data, cursor, bytes[..written]);
      cursor := cursor + written;
      if !healthy { if * { return FrError, written; } }
      res := FrOk;
    }

    /** `f_truncate`: cuts at the cursor; a failed call may have cut already. */
    method Truncate() returns (res: FResult)
      requires Valid()
      modifies this`data
      ensures Valid() && (data == old(data) || data == old(data)[..cursor])
      ensures res == FrOk ==> data == old(data)[..cursor]
      ensures healthy ==> res == FrOk
    {
      if !healthy { if * { return FrError; } }
      data := data[..cursor];
      if !healthy { if * { return FrError; } }
      res := FrOk;
    }
  }

  // ---------------------------------------------------------- oveRTOS file calls

  datatype Status = Ok | InvalidParam | Io | Eof

  /** `(uint64_t)(FSIZE_t)x == x`: the value survives the conversion to FSIZE_t. */
  predicate Representable(x: nat, sizeMax: nat) { x % (sizeMax + 1) == x }

  lemma RepresentableMeans(x: nat, sizeMax: nat)
    ensures Representable(x, sizeMax) <==> x <= sizeMax
  {
    if x <= sizeMax { NearMod(x, sizeMax + 1); }
  }

  /** A failed write at pos may have filled part of the gap and written part of the data, and nothing else. */
  ghost predicate OnlyTouched(before: seq<Byte>, after: seq<Byte>, pos: nat, count: nat)
  {
    && |before| <= |after|
    && (forall i :: 0 <= i < |before| && !(pos <= i < pos + count) ==> after[i] == before[i])
    && (forall i :: |before| <= i < |after| && i < pos ==> after[i] == 0)
    && |after| <= if pos + count <= |before| then |before| else pos + count
  }

  /** `(long)p` for a `long` with the given maximum. */
  function LongOf(p: nat, longMax: nat): int { (p + longMax + 1) % (2 * (longMax + 1)) - (longMax + 1) }

  lemma LongOfIs(p: nat, longMax: nat)
    ensures LongOf(p, longMax) == p <==> p <= longMax
    ensures longMax < p <= 2 * longMax + 1 ==> LongOf(p, longMax) < 0
    ensures LongOf(p, longMax) <= longMax && LongOf(p, longMax) <= p
  {
    var m := 2 * (longMax + 1);
    if p <= 2 * longMax + 1 { NearMod(p + longMax + 1, m); }
  }

  /** A 64-bit file position that a 32-bit `long` takes for zero. */
  lemma PositionMisread()
    ensures LongOf(0x1_0000_0000, 0x7fff_ffff) == 0
  {
    DivModUnique(0x1_8000_0000, 0x1_0000_0000, 1, 0x8000_0000);
  }

  lemma SizeAtMost(n: nat, longMax: nat)
    ensures n % (2 * (longMax + 1)) <= n
    ensures n < 2 * (longMax + 1) ==> n % (2 * (longMax + 1)) == n
  {
    var m := 2 * (longMax + 1);
    if n < m { NearMod(n, m); }
  }

  /** What a positional write starts from: cut or extended to the offset when that is past the size read. */
  function Prepared(bytes: seq<Byte>, offset: nat, longMax: nat): seq<Byte>
  {
    if offset > |bytes| % (2 * (longMax + 1)) then TruncateSpec(File(bytes, 0), offset).bytes else bytes
  }

  /**
   * A positional write is the write at the offset exactly unless the size read is
   * wrapped below the offset and the file goes on behind the data: then its tail is lost.
   */
  lemma PreparedExactIff(bytes: seq<Byte>, offset: nat, longMax: nat, data: seq<Byte>)
    ensures WriteSpec(File(Prepared(bytes, offset, longMax), offset), data) == WriteSpec(File(bytes, offset), data)
            <==> !(|bytes| % (2 * (longMax + 1)) < offset && offset + |data| < |bytes|)
  {
    SizeAtMost(|bytes|, longMax);
    var a := WriteSpec(File(Prepared(bytes, offset, longMax), offset), data).bytes;
    var b := WriteSpec(File(bytes, offset), data).bytes;
    if |bytes| % (2 * (longMax + 1)) < offset && offset + |data| < |bytes| {
      assert |a| < |b|;
    } else {
      assert a == b;
    }
  }

  /**
   * On a file opened for appending, a positional write leaves what a write at the
   * offset would leave if and only if there is no data or the offset is not before
   * the end. The first clause compares with the prepared contents, the second with
   * the contents before, for any size that can be read.
   */
  lemma AppendAtOffsetIff(bytes: seq<Byte>, offset: nat, longMax: nat, data: seq<Byte>)
    ensures
      var start := Prepared(bytes, offset, longMax);
      start + data == WriteSpec(File(start, offset), data).bytes <==> data == [] || offset >= |start|
    ensures |bytes| < 2 * (longMax + 1) ==>
      (Prepared(bytes, offset, longMax) + data == WriteSpec(File(bytes, offset), data).bytes
       <==> data == [] || offset >= |bytes|)
  {
    hide Prepared;
    PreparedLength(bytes, offset, longMax);
    AppendsAtIff(Prepared(bytes, offset, longMax), offset, data);
    if |bytes| < 2 * (longMax + 1) {
      PreparedExactIff(bytes, offset, longMax, data);
      SizeAtMost(|bytes|, longMax);
      PreparedIsPad(bytes, offset, longMax);
    }
  }

  lemma AppendsAtIff(start: seq<Byte>, offset: nat, data: seq<Byte>)
    requires offset <= |start|
    ensures start + data == WriteSpec(File(start, offset), data).bytes <==> data == [] || offset >= |start|
  {
    var w := WriteSpec(File(start, offset), data).bytes;
    if data == [] || offset >= |start| {
      assert start + data == w;
    } else {
      assert |w| < |start| + |data|;
    }
  }

  lemma PreparedIsPad(bytes: seq<Byte>, offset: nat, longMax: nat)
    requires |bytes| < 2 * (longMax + 1)
    ensures Prepared(bytes, offset, longMax) == Pad(bytes, offset)
  {
    SizeAtMost(|bytes|, longMax);
  }

  /** Writing one byte at offset 0 of a two-byte file opened for appending leaves it at the end. */
  lemma AppendMissesOffset(longMax: nat)
    requires longMax > 2
    ensures
      var was: seq<Byte>, data: seq<Byte> := [7, 7], [9];
      && Prepared(was, 0, longMax) + data == [7, 7, 9]
      && WriteSpec(File(was, 0), data).bytes == [9, 7]
  {
    PreparedIsPad([7, 7], 0, longMax);
  }

  lemma PreparedLength(bytes: seq<Byte>, offset: nat, longMax: nat)
    ensures |Prepared(bytes, offset, longMax)| >= offset
  {
    SizeAtMost(|bytes|, longMax);
  }

  lemma NothingTouched(bytes: seq<Byte>, pos: nat, count: nat)
    ensures OnlyTouched(bytes, bytes, pos, count)
  {
  }

  /** With a size that can be read, touching the prepared file is touching the file. */
  lemma PreparedTouched(before: seq<Byte>, after: seq<Byte>, offset: nat, longMax: nat, pos: nat, count: nat)
    requires |before| < 2 * (longMax + 1) && offset <= pos
    requires OnlyTouched(Prepared(before, offset, longMax), after, pos, count)
    ensures OnlyTouched(before, after, pos, count)
  {
    hide OnlyTouched;
    PreparedIsPad(before, offset, longMax);
    TouchedAfterPad(before, after, offset, pos, count);
  }

  lemma WiderTouched(before: seq<Byte>, after: seq<Byte>, gap: nat, pos: nat, count: nat)
    requires OnlyTouched(before, after, gap, 0) && gap <= pos && |before| <= gap
    ensures OnlyTouched(before, after, pos, count)
  {
  }

  lemma TouchedAfterPad(before: seq<Byte>, after: seq<Byte>, offset: nat, pos: nat, count: nat)
    requires OnlyTouched(Pad(before, offset), after, pos, count) && offset <= pos
    ensures OnlyTouched(before, after, pos, count)
  {
    assert forall i :: 0 <= i < |before| ==> Pad(before, offset)[i] == before[i];
    forall i | |before| <= i < |after| && i < pos ensures after[i] == 0 {
      if i < |Pad(before, offset)| { assert Pad(before, offset)[i] == 0; }
    }
  }

  /** `struct ove_file` */
  class OveFile {
    const fil: NativeFile
    var position: nat
    const append: bool
    /** LONG_MAX of the target */
    const longMax: nat

    ghost predicate Valid()
      reads this, fil
    {
      fil.Valid() && position <= fil.sizeMax
    }

    ghost function Abs(): File
      reads this, fil
    {
      File(fil.data, position)
    }

    /** The tail of `open_common`: in append mode the position starts at the end. */
    constructor (fil: NativeFile, append: bool, longMax: nat)
      requires fil.Valid()
      ensures Valid() && this.fil == fil && this.append == append && this.longMax == longMax
      ensures Abs() == File(fil.data, if append then |fil.data| else 0)
    {
      this.fil, this.append, this.longMax := fil, append, longMax;
      position := if append then |fil.data| else 0;
    }

    /** `position_native_cursor`, for a position inside the file. */
    method PositionCursor() returns (res: FResult)
      requires Valid() && position <= |fil.data|
      modifies fil
      ensures Valid() && fil.data == old(fil.data)
      ensures res == FrOk ==> fil.cursor == position
      ensures fil.healthy ==> res == FrOk
    {
      if fil.cursor == position { return FrOk; }
      res := fil.Lseek(position);
    }

    /** `extend_zero_filled`: grow the file in chunks of at most 512 zeros. */
    method ExtendZeroFilled(length: nat) returns (res: FResult)
      requires Valid() && length <= fil.sizeMax
      modifies fil
      ensures Valid()
      ensures res == FrOk ==> fil.data == Pad(old(fil.data), length)
      ensures fil.healthy ==> res == FrOk
      ensures exists n :: |old(fil.data)| <= n <= |Pad(old(fil.data), length)| && fil.data == Pad(old(fil.data), n)
    {
      ghost var before := fil.data;
      var size := |fil.data|;
      assert fil.data == Pad(before, size);
      if length <= size { return FrOk; }
      res := fil.Lseek(size);
      while res == FrOk && size < length
        invariant Valid() && |before| <= size <= length
        invariant fil.data == Pad(before, |fil.data|) && |before| <= |fil.data| <= length
        invariant res == FrOk ==> size == |fil.data| == fil.cursor
        invariant fil.healthy ==> res == FrOk
        decreases length - size, if res == FrOk then 1 else 0
      {
        var remaining := length - size;
        var chunk := if remaining < 512 then remaining else 512;
        var written;
        res, written := fil.Write(Zeros(chunk));
        if res == FrOk && written != chunk { res := FrError; }
        size := size + written;
      }
    }

    /** `ove_fs_read`: nothing at or past the end; a failed call keeps the position. */
    method Read(count: nat) returns (rc: Status, bytes: seq<Byte>)
      requires Valid()
      modifies this`position, fil
      ensures Valid() && fil.data == old(fil.data)
      ensures rc == Ok ==> bytes == ReadSpec(old(Abs()), count) && Abs() == old(Abs()).(pos := old(position) + |bytes|)
      ensures rc != Ok ==> rc == Io && Abs() == old(Abs()) && bytes == []
      ensures fil.healthy ==> rc == Ok
    {
      if position >= |fil.data| { return Ok, []; }
      var res := PositionCursor();
      if res != FrOk { return Io, []; }
      res, bytes := fil.Read(count);
      if res != FrOk { return Io, []; }
      position := position + |bytes|;
      rc := Ok;
    }

    /**
     * `ove_fs_write`: on success the first `written` bytes have gone to the
     * position, or to the end in append mode, with zeros in any gap.
     */
    method Write(bytes: seq<Byte>) returns (rc: Status, written: nat)
      requires Valid()
      modifies this`position, fil
      ensures Valid() && written <= |bytes|
      ensures rc == Ok ==>
        Abs() == if append then AppendSpec(old(Abs()), bytes[..written]) else WriteSpec(old(Abs()), bytes[..written])
      ensures rc != Ok ==> position == if append then |old(fil.data)| else old(position)
      ensures OnlyTouched(old(fil.data), fil.data, if append then |old(fil.data)| else old(position), |bytes|)
      ensures fil.healthy ==> rc == Ok
      ensures fil.healthy && (if append then |old(fil.data)| else old(position)) + |bytes| <= fil.sizeMax ==>
        written == |bytes|
    {
      ghost var before := fil.data;
      written := 0;
      if append { position := |fil.data|; }
      var res := ExtendZeroFilled(position);
      if res == FrOk { res := PositionCursor(); }
      if res != FrOk { return Io, 0; }
      res, written := fil.Write(bytes);
      if res != FrOk { return Io, written; }
      position := position + written;
      rc := Ok;
    }

    /** `ove_fs_size`: the size as far as `size_t`, which is as wide as `long`, can hold it. */
    method Size() returns (size: nat)
      ensures size == |fil.data| % (2 * (longMax + 1))
    {
      size := |fil.data| % (2 * (longMax + 1));
    }

    /** `ove_fs_tell`: the position converted to `long`. */
    method Tell() returns (pos: int)
      ensures pos == LongOf(position, longMax)
      ensures pos == position <==> position <= longMax
    {
      LongOfIs(position, longMax);
      pos := LongOf(position, longMax);
    }

    /** `ove_fs_seek`: succeeds exactly when base plus offset is a representable position. */
    method Seek(offset: int, whence: Whence) returns (rc: Status)
      requires Valid()
      requires -0x8000_0000_0000_0000 <= offset < 0x8000_0000_0000_0000 && fil.sizeMax < DWORD
      modifies this`position
      ensures Valid()
      ensures rc == Ok || rc == InvalidParam
      ensures rc == Ok <==> whence != Bad && 0 <= SeekBase(old(Abs()), whence) + offset <= fil.sizeMax
      ensures position == if rc == Ok then SeekBase(old(Abs()), whence) + offset else old(position)
    {
      hide Representable;
      var base: nat := 0;
      match whence {
        case Set => base := 0;
        case Cur => base := position;
        case End => base := |fil.data|;
        case Bad => return InvalidParam;
      }
      var pos: nat;
      if offset < 0 {
        var magnitude := -(offset + 1) + 1;
        if magnitude > base { return InvalidParam; }
        pos := base - magnitude;
      } else {
        pos := (base + offset) % DWORD;
        if pos < base { return InvalidParam; }
      }
      RepresentableMeans(pos, fil.sizeMax);
      if !Representable(pos, fil.sizeMax) { return InvalidParam; }
      position := pos;
      rc := Ok;
    }

    /**
     * `ove_fs_truncate`: cut or extend with zeros; the position stays. A failed call may
     * have cut, or extended in part.
     */
    method Truncate(length: nat) returns (rc: Status)
      requires Valid()
      modifies fil
      ensures Valid() && position == old(position)
      ensures rc == Ok ==> length <= fil.sizeMax && Abs() == TruncateSpec(old(Abs()), length)
      ensures length > fil.sizeMax ==> rc == InvalidParam && fil.data == old(fil.data)
      ensures if length > |old(fil.data)| then OnlyTouched(old(fil.data), fil.data, length, 0)
              else fil.data == old(fil.data) || fil.data == old(fil.data)[..length]
      ensures fil.healthy && length <= fil.sizeMax ==> rc == Ok
    {
      hide Representable;
      RepresentableMeans(length, fil.sizeMax);
      if !Representable(length, fil.sizeMax) { return InvalidParam; }
      var res;
      if length > |fil.data| {
        res := ExtendZeroFilled(length);
      } else {
        res := fil.Lseek(length);
      }
      if res == FrOk && length < |fil.data| { res := fil.Truncate(); }
      rc := if res == FrOk then Ok else Io;
    }

    /** Putting a saved position back always succeeds. */
    method Restore(saved: nat)
      requires Valid() && saved <= fil.sizeMax < DWORD && saved < 0x8000_0000_0000_0000
      modifies this`position
      ensures Valid() && position == saved
    {
      var rc := Seek(saved, Set);
    }

    /** The positional calls go past their argument checks and the position read back. */
    ghost predicate Starts(count: nat, offset: nat, bufferBytes: nat)
      reads this
    {
      count <= bufferBytes && offset <= longMax && LongOf(position, longMax) >= 0
    }

    /**
     * The pread case of `execute_request`: the bytes at the offset, or the end of
     * file at or past the size read. The contents never change. The position is as
     * before whatever happens, unless `long` could not hold it and its conversion
     * came out non-negative: then the converted position is put back.
     */
    method PRead(count: nat, offset: nat, bufferBytes: nat) returns (rc: Status, bytes: seq<Byte>)
      requires Valid() && fil.sizeMax < DWORD && longMax < 0x8000_0000_0000_0000
      modifies this`position, fil
      ensures Valid() && fil.data == old(fil.data)
      ensures count > bufferBytes || offset > longMax ==> rc == InvalidParam
      ensures rc == Eof <==> old(Starts(count, offset, bufferBytes)) && offset >= |fil.data| % (2 * (longMax + 1))
      ensures rc == Ok ==> offset < |fil.data| && bytes == ReadSpec(File(fil.data, offset), count)
      ensures rc != Ok ==> bytes == []
      ensures fil.healthy && old(Starts(count, offset, bufferBytes)) && offset < |fil.data| % (2 * (longMax + 1)) ==>
        rc == Ok
      ensures position == old(position) <==>
                !(old(Starts(count, offset, bufferBytes)) && offset < |fil.data| % (2 * (longMax + 1)) &&
                  old(position) > longMax)
      ensures position == old(position) || position == LongOf(old(position), longMax)
    {
      hide LongOf;
      if count > bufferBytes || offset > longMax { return InvalidParam, []; }
      var saved := Tell();
      if saved < 0 { return Io, []; }
      var size := Size();
      if offset >= size { return Eof, []; }
      SizeAtMost(|fil.data|, longMax);
      bytes := [];
      rc := Seek(offset, Set);
      if rc != Ok { return; }
      rc, bytes := Read(count);
      LongOfIs(old(position), longMax);
      Restore(saved);
    }

    /**
     * The pwrite case of `execute_request`. With a size that `size_t` can hold: on a
     * file not opened for appending the data goes to the offset with zeros in any
     * gap; on one that was, the file is first extended to the offset and the data
     * still goes to the end; a failed call has touched the gap and the target range
     * only. With a larger size the file may first be cut at the offset. The position
     * is as before whatever happens, unless `long` could not hold it and its
     * conversion came out non-negative: then the converted position is put back.
     */
    method PWrite(bytes: seq<Byte>, offset: nat, bufferBytes: nat) returns (rc: Status, written: nat)
      requires Valid() && fil.sizeMax < DWORD && longMax < 0x8000_0000_0000_0000
      modifies this`position, fil
      ensures Valid() && written <= |bytes|
      ensures |bytes| > bufferBytes || offset > longMax ==> rc == InvalidParam && fil.data == old(fil.data)
      ensures
        var start := Prepared(old(fil.data), offset, longMax);
        && (rc == Ok && !append ==> fil.data == WriteSpec(File(start, offset), bytes[..written]).bytes)
        && (rc == Ok && append ==> fil.data == start + bytes[..written])
        && (|old(fil.data)| < 2 * (longMax + 1) ==>
              OnlyTouched(old(fil.data), fil.data, if append then |start| else offset, |bytes|))
      ensures position == old(position) || (position == LongOf(old(position), longMax) && old(position) > longMax)
      ensures rc == Ok ==> (position == old(position) <==> old(position) <= longMax)
      ensures fil.healthy && old(Starts(|bytes|, offset, bufferBytes)) && offset <= fil.sizeMax ==> rc == Ok
      ensures
        var target := if append then |Prepared(old(fil.data), offset, longMax)| else offset;
        fil.healthy && rc == Ok && target + |bytes| <= fil.sizeMax ==> written == |bytes|
    {
      hide LongOf, OnlyTouched, Prepared, WriteSpec, Overlay, Pad;
      ghost var before := fil.data;
      ghost var start := Prepared(before, offset, longMax);
      ghost var target := if append then |start| else offset;
      written := 0;
      NothingTouched(before, target, |bytes|);
      PreparedLength(before, offset, longMax);
      if |bytes| > bufferBytes || offset > longMax { return InvalidParam, 0; }
      var saved := Tell();
      if saved < 0 { return Io, 0; }
      LongOfIs(position, longMax);
      rc := Prepare(offset, target, |bytes|);
      if rc != Ok { return rc, 0; }
      rc := Seek(offset, Set);
      if rc != Ok { return; }
      rc, written := Write(bytes);
      if |before| < 2 * (longMax + 1) { PreparedTouched(before, fil.data, offset, longMax, target, |bytes|); }
      Restore(saved);
    }

    /** Bring the file to the offset of a positional write, as far as the size read says it is short. */
    method Prepare(offset: nat, ghost target: nat, ghost count: nat) returns (rc: Status)
      requires Valid() && offset <= target
      modifies fil
      ensures Valid() && position == old(position)
      ensures rc == Ok ==> fil.data == Prepared(old(fil.data), offset, longMax)
      ensures |old(fil.data)| < 2 * (longMax + 1) && rc != Ok ==> OnlyTouched(old(fil.data), fil.data, target, count)
      ensures fil.healthy && offset <= fil.sizeMax ==> rc == Ok
    {
      var size := Size();
      SizeAtMost(|fil.data|, longMax);
      rc := Ok;
      if offset > size {
        ghost var before := fil.data;
        rc := Truncate(offset);
        if |before| <= size { WiderTouched(before, fil.data, offset, target, count); }
      }
    }

    /** Any run of calls, one after another; `trace` is the plain file after each. */
    method Run(ops: seq<Op>) returns (outs: seq<Out>, ghost trace: seq<File>)
      requires Valid() && fil.sizeMax < DWORD
      requires forall i :: 0 <= i < |ops| && ops[i].SeekOp? ==>
        -0x8000_0000_0000_0000 <= ops[i].offset < 0x8000_0000_0000_0000
      modifies this`position, fil
      ensures Valid() && |outs| == |ops| && |trace| == |ops| + 1
      ensures trace[0] == old(Abs()) && trace[|ops|] == Abs()
      ensures forall i :: 0 <= i < |ops| && outs[i].rc == Ok ==>
        Follows(trace[i], append, ops[i], outs[i], trace[i + 1])
    {
      outs, trace := [], [Abs()];
      for i := 0 to |ops|
        invariant Valid() && |outs| == i && |trace| == i + 1
        invariant trace[0] == old(Abs()) && trace[i] == Abs()
        invariant forall j :: 0 <= j < i && outs[j].rc == Ok ==>
          Follows(trace[j], append, ops[j], outs[j], trace[j + 1])
      {
        var out := Step(ops[i]);
        outs := outs + [out];
        trace := trace + [Abs()];
      }
    }

    method Step(op: Op) returns (out: Out)
      requires Valid() && fil.sizeMax < DWORD
      requires op.SeekOp? ==> -0x8000_0000_0000_0000 <= op.offset < 0x8000_0000_0000_0000
      modifies this`position, fil
      ensures Valid()
      ensures out.rc == Ok ==> Follows(old(Abs()), append, op, out, Abs())
    {
      match op {
        case ReadOp(count) =>
          var rc, bytes := Read(count);
          out := Out(rc, bytes, 0);
        case WriteOp(data) =>
          var rc, written := Write(data);
          out := Out(rc, [], written);
        case SeekOp(offset, whence) =>
          var rc := Seek(offset, whence);
          out := Out(rc, [], 0);
        case TruncateOp(length) =>
          var rc := Truncate(length);
          out := Out(rc, [], 0);
      }
    }
  }

  datatype Op =
    | ReadOp(count: nat)
    | WriteOp(data: seq<Byte>)
    | SeekOp(offset: int, whence: Whence)
    | TruncateOp(length: nat)

  datatype Out = Out(rc: Status, bytes: seq<Byte>, written: nat)

  /** The successful call `op` with outcome `out` took the plain file from f to g. */
  predicate Follows(f: File, append: bool, op: Op, out: Out, g: File)
  {
    match op
    case ReadOp(count) => out.bytes == ReadSpec(f, count) && g == f.(pos := f.pos + |out.bytes|)
    case WriteOp(data) =>
      && out.written <= |data|
      && g == if append then AppendSpec(f, data[..out.written]) else WriteSpec(f, data[..out.written])
    case SeekOp(offset, whence) => SeekBase(f, whence) + offset >= 0 && g == f.(pos := SeekBase(f, whence) + offset)
    case TruncateOp(length) => g == TruncateSpec(f, length)
  }

  // ----------------------------------------------------- what the plain file gives

  /**
   * What is written at a position is what is read there, whatever the file held and
   * however far past the end it was.
   */
  lemma ReadBack(f: File, data: seq<Byte>)
    ensures ReadSpec(WriteSpec(f, data).(pos := f.pos), |data|) == data
  {
  }

  /** The gap left by writing past the end reads as zeros. */
  lemma GapReadsZero(f: File, data: seq<Byte>, at: nat, count: nat)
    requires |f.bytes| <= at && at + count <= f.pos
    ensures ReadSpec(WriteSpec(f, data).(pos := at), count) == Zeros(count)
  {
  }

  /** Two writes in a row leave what one write of both leaves, contents and position. */
  lemma WritesJoin(f: File, a: seq<Byte>, b: seq<Byte>)
    ensures WriteSpec(WriteSpec(f, a), b) == WriteSpec(f, a + b)
    ensures AppendSpec(AppendSpec(f, a), b) == AppendSpec(f, a + b)
  {
    var x, y := WriteSpec(WriteSpec(f, a), b).bytes, WriteSpec(f, a + b).bytes;
    assert |x| == |y|;
    assert x == y;
    assert (f.bytes + a) + b == f.bytes + (a + b);
  }

  /** Two reads in a row give what one read of both gives. */
  lemma ReadsJoin(f: File, m: nat, n: nat)
    ensures
      var first := ReadSpec(f, m);
      first + ReadSpec(f.(pos := f.pos + |first|), n) == ReadSpec(f, m + n)
  {
  }

  /** What the three ways of seeking are relative to: the start, the position, the end. */
  lemma SeekBases(f: File, count: nat)
    ensures f.(pos := SeekBase(f, Cur)) == f && SeekBase(f, Set) == 0 && SeekBase(f, End) == |f.bytes|
    ensures ReadSpec(f.(pos := SeekBase(f, End)), count) == []
    ensures ReadSpec(f.(pos := SeekBase(f, Set)), |f.bytes|) == f.bytes
  {
  }
}
