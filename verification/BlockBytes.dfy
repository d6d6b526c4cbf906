/**
 * Byte-addressed access to a sector device, as
 * backends/common/lxp_ove_storage_adapter.c provides it: whole sectors are moved
 * directly, partial ones through a read-modify-write of a scratch sector.
 */
module BlockBytes {
  import opened Arith
  import opened Common

  datatype Status = Ok | InvalidParam | Permission | DeviceError

  /** Every sector has the same positive size. */
  predicate Uniform(secs: seq<seq<Byte>>, size: nat)
  {
    size > 0 && forall b :: 0 <= b < |secs| ==> |secs[b]| == size
  }

  /** The sector of a byte, and its place there. */
  function SectorOf(i: nat, size: nat): nat
    requires size > 0
  {
    i / size
  }

  function PlaceOf(i: nat, size: nat): (p: nat)
    requires size > 0
    ensures p < size
  {
    i % size
  }

  /** Size of the device in bytes. */
  function Total(secs: seq<seq<Byte>>, size: nat): nat { |secs| * size }

  /** The device as one run of bytes. */
  function Image(secs: seq<seq<Byte>>, size: nat): (r: seq<Byte>)
    requires Uniform(secs, size)
    ensures |r| == Total(secs, size)
  {
    seq(Total(secs, size), i requires 0 <= i < Total(secs, size) =>
      InSector(i, size, secs);
      secs[SectorOf(i, size)][PlaceOf(i, size)])
  }

  lemma InSector(i: nat, size: nat, secs: seq<seq<Byte>>)
    requires size > 0 && i < Total(secs, size)
    ensures SectorOf(i, size) < |secs| && PlaceOf(i, size) < size
  {
    if SectorOf(i, size) >= |secs| {
      MulMono(|secs|, SectorOf(i, size), size);
    }
  }

  /** A chunk that starts inside a sector and does not leave it. */
  predicate WithinSector(off: nat, n: nat, size: nat)
    requires size > 0
  {
    PlaceOf(off, size) + n <= size
  }

  /** The bytes of a chunk all lie in the sector of its first, at consecutive places. */
  lemma ChunkIndex(off: nat, n: nat, size: nat, i: nat)
    requires size > 0 && WithinSector(off, n, size) && off <= i < off + n
    ensures SectorOf(i, size) == SectorOf(off, size) && PlaceOf(i, size) == PlaceOf(off, size) + (i - off)
  {
    DivModUnique(i, size, SectorOf(off, size), PlaceOf(off, size) + (i - off));
  }

  /** A byte of the same sector outside the chunk has a place outside the chunk. */
  lemma OtherIndex(off: nat, n: nat, size: nat, i: nat)
    requires size > 0 && WithinSector(off, n, size) && !(off <= i < off + n) && SectorOf(i, size) == SectorOf(off, size)
    ensures !(PlaceOf(off, size) <= PlaceOf(i, size) < PlaceOf(off, size) + n)
  {
    assert i == size * (SectorOf(i, size)) + PlaceOf(i, size) &&
      off == size * (SectorOf(off, size)) + PlaceOf(off, size);
  }

  lemma ImageAt(secs: seq<seq<Byte>>, size: nat, i: nat)
    requires Uniform(secs, size) && i < Total(secs, size)
    ensures SectorOf(i, size) < |secs| && PlaceOf(i, size) < size &&
      Image(secs, size)[i] == secs[SectorOf(i, size)][PlaceOf(i, size)]
  {
    InSector(i, size, secs);
  }

  /** Reading a chunk out of its sector is slicing the image. */
  lemma ChunkIsSlice(secs: seq<seq<Byte>>, size: nat, off: nat, n: nat)
    requires Uniform(secs, size) && WithinSector(off, n, size) && off + n <= Total(secs, size) && n > 0
    ensures SectorOf(off, size) < |secs|
    ensures secs[SectorOf(off, size)][PlaceOf(off, size)..PlaceOf(off, size) + n] == Image(secs, size)[off..off + n]
  {
    hide Image, Total, SectorOf, PlaceOf;
    InSector(off, size, secs);
    var a := secs[SectorOf(off, size)][PlaceOf(off, size)..PlaceOf(off, size) + n];
    var b := Image(secs, size)[off..off + n];
    forall k | 0 <= k < n ensures a[k] == b[k] {
      ChunkIndex(off, n, size, off + k);
      ImageAt(secs, size, off + k);
    }
  }

  /** The sectors after a chunk of one of them is replaced. */
  function Replaced(secs: seq<seq<Byte>>, size: nat, off: nat, data: seq<Byte>): (r: seq<seq<Byte>>)
    requires Uniform(secs, size) && WithinSector(off, |data|, size) && SectorOf(off, size) < |secs|
    ensures Uniform(r, size) && |r| == |secs| && Total(r, size) == Total(secs, size)
  {
    secs[SectorOf(off, size) := Splice(secs[SectorOf(off, size)], PlaceOf(off, size), data)]
  }

  lemma ReplacedAt(secs: seq<seq<Byte>>, size: nat, off: nat, data: seq<Byte>, i: nat)
    requires Uniform(secs, size) && WithinSector(off, |data|, size) && SectorOf(off, size) < |secs| &&
      off + |data| <= Total(secs, size) && i < Total(secs, size)
    ensures Image(Replaced(secs, size, off, data), size)[i] == Splice(Image(secs, size), off, data)[i]
  {
    hide Image, Total, SectorOf, PlaceOf;
    ImageAt(secs, size, i);
    ImageAt(Replaced(secs, size, off, data), size, i);
    if off <= i < off + |data| {
      ChunkIndex(off, |data|, size, i);
    } else if SectorOf(i, size) == SectorOf(off, size) {
      OtherIndex(off, |data|, size, i);
    }
  }

  /** Replacing a chunk inside its sector is splicing the image. */
  lemma ChunkIsSplice(secs: seq<seq<Byte>>, size: nat, off: nat, data: seq<Byte>)
    requires Uniform(secs, size) && WithinSector(off, |data|, size) && off + |data| <= Total(secs, size) && |data| > 0
    ensures SectorOf(off, size) < |secs|
    ensures Image(Replaced(secs, size, off, data), size) == Splice(Image(secs, size), off, data)
  {
    hide Image, Total, WithinSector, Replaced, Splice, SectorOf, PlaceOf;
    InSector(off, size, secs);
    var a, b := Image(Replaced(secs, size, off, data), size), Splice(Image(secs, size), off, data);
    forall i | 0 <= i < |a| ensures a[i] == b[i] {
      ReplacedAt(secs, size, off, data, i);
    }
  }

  /** Splicing on from where a splice ended is one splice. */
  lemma SpliceOn(s: seq<Byte>, off: nat, data: seq<Byte>, k: nat, n: nat)
    requires k + n <= |data| && off + |data| <= |s|
    ensures Splice(Splice(s, off, data[..k]), off + k, data[k..k + n]) == Splice(s, off, data[..k + n])
  {
  }

  /** The sectors one behind the other. */
  function Flat(secs: seq<seq<Byte>>): seq<Byte>
  {
    if secs == [] then [] else Flat(secs[..|secs| - 1]) + secs[|secs| - 1]
  }

  /** The image is the sectors one behind the other. */
  lemma {:induction false} ImageIsFlat(secs: seq<seq<Byte>>, size: nat)
    requires Uniform(secs, size)
    ensures Image(secs, size) == Flat(secs)
  {
    hide Image, Total;
    if secs == [] {
      NoBytes(size);
    } else {
      var n := |secs| - 1;
      ImageIsFlat(secs[..n], size);
      ImageStep(secs, size);
    }
  }

  lemma NoBytes(size: nat)
    requires size > 0
    ensures Image([], size) == []
  {
  }

  lemma ImageStep(secs: seq<seq<Byte>>, size: nat)
    requires Uniform(secs, size) && secs != []
    ensures Image(secs, size) == Image(secs[..|secs| - 1], size) + secs[|secs| - 1]
  {
    hide Image, SectorOf, PlaceOf;
    var n := |secs| - 1;
    var a, b := Image(secs, size), Image(secs[..n], size);
    assert |a| == |b| + size;
    forall i | 0 <= i < |a| ensures a[i] == (b + secs[n])[i] {
      ImageAt(secs, size, i);
      if i < |b| {
        ImageAt(secs[..n], size, i);
      } else {
        LastSector(n, size, i);
      }
    }
  }

  lemma LastSector(n: nat, size: nat, i: nat)
    requires size > 0 && n * size <= i < n * size + size
    ensures SectorOf(i, size) == n && PlaceOf(i, size) == i - n * size
  {
    DivModUnique(i, size, n, i - n * size);
  }

  /** The card behind the block API; on a healthy one no operation fails. */
  class Device {
    var sectors: seq<seq<Byte>>
    const size: nat
    const healthy: bool

    ghost predicate Valid()
      reads this
    {
      Uniform(sectors, size) && size > 0
    }

    constructor (sectors: seq<seq<Byte>>, size: nat, healthy: bool)
      requires Uniform(sectors, size)
      ensures Valid() && this.sectors == sectors && this.size == size && this.healthy == healthy
    {
      this.sectors, this.size, this.healthy := sectors, size, healthy;
    }

    /** `ove_block_read` of one sector; may fail. */
    method ReadSector(b: nat) returns (rc: Status, data: seq<Byte>)
      requires Valid() && b < |sectors|
      ensures rc == Ok || rc == DeviceError
      ensures rc == Ok ==> data == sectors[b] && |data| == size
      ensures healthy ==> rc == Ok
    {
      if !healthy { if * { return DeviceError, []; } }
      return Ok, sectors[b];
    }

    /** `ove_block_write` of one sector; may fail, and then has no effect. */
    method WriteSector(b: nat, data: seq<Byte>) returns (rc: Status)
      requires Valid() && b < |sectors| && |data| == size
      modifies this
      ensures Valid() && (rc == Ok || rc == DeviceError)
      ensures sectors == if rc == Ok then old(sectors)[b := data] else old(sectors)
      ensures healthy ==> rc == Ok
    {
      if !healthy { if * { return DeviceError; } }
      sectors := sectors[b := data];
      rc := Ok;
    }
  }

  /** The adapter's raw-block state. */
  class Adapter {
    const dev: Device
    /** Size of the sector buffer. */
    const sectorMax: nat
    var infoValid: bool
    /** The raw lease: held at all, and held for writing. */
    var leased: bool
    var writable: bool

    ghost predicate Valid()
      reads this, dev
    {
      dev.Valid() && (infoValid ==> dev.size <= sectorMax && dev.sectors != [])
    }

    /** The range can be served: a usable device of less than 2^64 bytes that contains it. */
    ghost predicate Served(offset: nat, count: nat)
      reads dev
    {
      && dev.size <= sectorMax && dev.sectors != []
      && offset + count <= |dev.sectors| * dev.size < DWORD
    }

    constructor (dev: Device, sectorMax: nat, leased: bool, writable: bool)
      requires dev.Valid()
      ensures Valid() && this.dev == dev && this.leased == leased && this.writable == writable && !infoValid
      ensures this.sectorMax == sectorMax
    {
      this.dev, this.sectorMax, this.leased, this.writable, infoValid := dev, sectorMax, leased, writable, false;
    }

    /**
     * `block_bounds` and `refresh_block_info`: accepts only ranges that can be served,
     * and refuses such a range only if the device does not answer.
     */
    method Bounds(offset: nat, count: nat) returns (rc: Status)
      requires Valid()
      modifies this`infoValid
      ensures Valid() && rc != Permission
      ensures rc == Ok ==> Served(offset, count) && offset + count <= Total(dev.sectors, dev.size) < DWORD
      ensures rc == InvalidParam ==> !Served(offset, count)
      ensures dev.healthy ==> rc != DeviceError
    {
      if !infoValid {
        if !dev.healthy { if * { return DeviceError; } }
        if dev.size > sectorMax || |dev.sectors| == 0 { return InvalidParam; }
        infoValid := true;
      }
      QuotientTest(|dev.sectors|, dev.size);
      if |dev.sectors| > (DWORD - 1) / dev.size { return InvalidParam; }
      var total := Total(dev.sectors, dev.size);
      rc := if offset <= total && count <= total - offset then Ok else InvalidParam;
    }

    /** One turn of the read loop: the part of the range that lies in the sector of `offset`. */
    method ReadChunk(offset: nat, count: nat) returns (rc: Status, part: seq<Byte>)
      requires Valid() && count > 0 && offset + count <= Total(dev.sectors, dev.size)
      ensures rc == Ok || rc == DeviceError
      ensures rc == Ok ==> 0 < |part| <= count && part == Image(dev.sectors, dev.size)[offset..offset + |part|]
      ensures dev.healthy ==> rc == Ok
    {
      hide Image, Total, SectorOf, PlaceOf;
      var size := dev.size;
      var within := PlaceOf(offset, size);
      var chunk := size - within;
      if chunk > count { chunk := count; }
      ChunkIsSlice(dev.sectors, size, offset, chunk);
      var data;
      rc, data := dev.ReadSector(SectorOf(offset, size));
      if rc != Ok { return rc, []; }
      part := if within == 0 && chunk == size then data else data[within..within + chunk];
      assert data[within..within + chunk] == part;
    }

    /** `block_read_bytes`: a successful read is the slice of the device image; the device never changes. */
    method ReadBytes(offset0: nat, count0: nat) returns (rc: Status, out: seq<Byte>)
      requires Valid()
      modifies this`infoValid
      ensures rc == Ok ==>
        && offset0 + count0 <= Total(dev.sectors, dev.size)
        && out == Image(dev.sectors, dev.size)[offset0..offset0 + count0]
      ensures Valid() && rc != Permission && (rc == Ok ==> Served(offset0, count0))
      ensures dev.healthy ==> (rc == Ok <==> Served(offset0, count0))
    {
      hide Image, Total, Uniform, SectorOf, PlaceOf, Served;
      out := [];
      rc := Bounds(offset0, count0);
      if rc != Ok || count0 == 0 { return; }
      if !leased {
        if !dev.healthy { if * { return DeviceError, []; } }
      }
      var offset: nat, count: nat := offset0, count0;
      ghost var image := Image(dev.sectors, dev.size);
      while count > 0
        invariant offset + count == offset0 + count0 && offset0 <= offset
        invariant out == image[offset0..offset] && rc == Ok
        decreases count
      {
        var part;
        rc, part := ReadChunk(offset, count);
        if rc != Ok {
          infoValid := false;
          return rc, [];
        }
        assert image[offset0..offset] + image[offset..offset + |part|] == image[offset0..offset + |part|];
        out := out + part;
        offset, count := offset + |part|, count - |part|;
      }
    }

    /**
     * `block_write_bytes`: a successful write splices the data into the device
     * image; one that stops early has spliced in a first part of it and changed
     * nothing else.
     */
    method WriteBytes(offset0: nat, buffer: seq<Byte>) returns (rc: Status, ghost done: nat)
      requires Valid()
      modifies this`infoValid, dev
      ensures Valid() && |dev.sectors| == |old(dev.sectors)| && done <= |buffer|
      ensures rc == Ok ==> done == |buffer|
      ensures rc == Permission ==> done == 0 && !(leased && writable)
      ensures |buffer| > 0 && !(leased && writable) ==> rc != Ok && done == 0
      ensures rc == Ok ==> old(Served(offset0, |buffer|))
      ensures dev.healthy ==>
        (rc == Ok <==> old(Served(offset0, |buffer|)) && (|buffer| == 0 || (leased && writable)))
      ensures if done == 0 then dev.sectors == old(dev.sectors)
              else offset0 + |buffer| <= Total(dev.sectors, dev.size) &&
                   Image(dev.sectors, dev.size) == Splice(old(Image(dev.sectors, dev.size)), offset0, buffer[..done])
    {
      hide Image, Total, Uniform, SectorOf, PlaceOf, Splice, Served;
      done := 0;
      rc := Bounds(offset0, |buffer|);
      if rc != Ok || |buffer| == 0 { return; }
      if !leased || !writable { return Permission, 0; }
      var offset: nat, count: nat := offset0, |buffer|;
      ghost var image := Image(dev.sectors, dev.size);
      assert Splice(image, offset0, buffer[..0]) == image;
      while count > 0
        invariant Valid() && |dev.sectors| == |old(dev.sectors)| && offset0 + |buffer| <= Total(dev.sectors, dev.size)
        invariant count <= |buffer| && offset == offset0 + (|buffer| - count) && done == |buffer| - count
        invariant done == 0 ==> dev.sectors == old(dev.sectors)
        invariant Image(dev.sectors, dev.size) == Splice(image, offset0, buffer[..done])
        invariant rc == Ok
        decreases count
      {
        var chunk;
        rc, chunk := WriteChunk(offset, buffer[|buffer| - count..]);
        if rc != Ok {
          infoValid := false;
          return;
        }
        SpliceOn(image, offset0, buffer, done, chunk);
        assert buffer[done..][..chunk] == buffer[done..done + chunk];
        offset, count := offset + chunk, count - chunk;
        done := done + chunk;
      }
    }

    /** One turn of the write loop: the part of `rest` that fits the sector of `offset`. */
    method WriteChunk(offset: nat, rest: seq<Byte>) returns (rc: Status, chunk: nat)
      requires Valid() && |rest| > 0 && offset + |rest| <= Total(dev.sectors, dev.size)
      modifies dev
      ensures Valid() && |dev.sectors| == |old(dev.sectors)| && (rc == Ok || rc == DeviceError)
      ensures rc == Ok ==>
        && 0 < chunk <= |rest|
        && Image(dev.sectors, dev.size) == Splice(old(Image(dev.sectors, dev.size)), offset, rest[..chunk])
      ensures rc != Ok ==> dev.sectors == old(dev.sectors)
      ensures dev.healthy ==> rc == Ok
    {
      hide Image, Total, SectorOf, PlaceOf;
      var size := dev.size;
      var block, within := SectorOf(offset, size), PlaceOf(offset, size);
      chunk := size - within;
      if chunk > |rest| { chunk := |rest|; }
      ChunkIsSplice(dev.sectors, size, offset, rest[..chunk]);
      if within == 0 && chunk == size {
        assert Splice(dev.sectors[block], 0, rest[..chunk]) == rest[..chunk];
        rc := dev.WriteSector(block, rest[..chunk]);
      } else {
        var scratch;
        rc, scratch := dev.ReadSector(block);
        if rc == Ok {
          scratch := Splice(scratch, within, rest[..chunk]);
          rc := dev.WriteSector(block, scratch);
        }
      }
    }
  }

  /** Comparing against the quotient is comparing the product against the limit. */
  lemma QuotientTest(n: nat, size: nat)
    requires size > 0
    ensures n > (DWORD - 1) / size <==> n * size >= DWORD
  {
    var q, r := (DWORD - 1) / size, (DWORD - 1) % size;
    assert DWORD - 1 == size * q + r;
    if n > q {
      MulMono(q + 1, n, size);
      assert (q + 1) * size == size * q + size;
    } else {
      MulMono(n, q, size);
    }
  }
}
