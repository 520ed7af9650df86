/**
  ahci_read of kernel/src/drv/disk/ahci.c: a byte range read in chunks of 64
  sectors. ahci_read_sectors copies one sector more than it transfers, so each
  chunk spills a zeroed sector that the next chunk or the slack behind the
  buffer has to take.

  Sectors hold 512 bytes, or 2048 on an optical drive. Transfers succeed. Every
  chunk goes through a transfer buffer of its own; where kmalloc_common puts
  it is a parameter.
 */
module AhciDisk {
  import opened Bits
  import opened ByteRanges
  import opened SectorDisk
  import opened PageMapping
  import opened DmaMemory
  import opened DmaMachine
  import opened AhciChunks

  class Port {
    const blockSize: nat
    var sectors: seq<Sector>

    ghost predicate Valid()
      reads this
    {
      BlockSize(blockSize) && Uniform(sectors, blockSize)
    }

    ghost function Bytes(): seq<Byte>
      reads this
    {
      Flat(sectors)
    }

    constructor (ss: seq<Sector>, atapi: bool)
      requires Uniform(ss, if atapi then 2048 else 512)
      ensures Valid() && sectors == ss && blockSize == if atapi then 2048 else 512
    {
      sectors, blockSize := ss, if atapi then 2048 else 512;
    }

    /**
      ahci_read_sectors through the transfer buffer at page v. The single table
      entry starts at the frame of page v; `count` sectors arrive and count + 1
      are copied.
     */
    method ReadSectors(lba: nat, count: nat, m: Machine, v: nat, buffer: array<Byte>, at: nat, ghost data: seq<Byte>)
      requires Valid() && 0 < count <= 64 && lba + count <= |sectors|
      requires |data| == blockSize * count && blockSize * lba + |data| <= |Bytes()|
      requires data == Bytes()[blockSize * lba..blockSize * lba + |data|]
      requires at + |data| + blockSize <= buffer.Length
      requires Injective(m.pages) && MappedRange(m.pages, v, PagesOf(|data| + blockSize))
      modifies m`ram, buffer
      ensures buffer[..] == Splice(old(buffer[..]), at, ArrivedAll(m.pages, v, data, |data| + blockSize))
    {
      var bytes := (count + 1) * blockSize;
      assert bytes == |data| + blockSize;
      m.Clear(v, bytes);
      ghost var r := m.ram;
      var from := blockSize * lba;
      m.Receive(PhysOf(m.pages, v), Flat(sectors)[from..from + blockSize * count]);
      OneRequest(r, m.ram, m.pages, v, data);
      forall y | 0 <= y < bytes
        ensures ByteAt(m.pages, m.ram, v, y) == Arrived(m.pages, v, data, y)
      {
        PageWithin(v, bytes, y);
        SeenIsArrived(r, m.ram, m.pages, v, data, y);
      }
      ghost var seen := ArrivedAll(m.pages, v, data, bytes);
      m.CopyTo(buffer, at, v, 0, bytes, seen);
      assert seen[0..bytes] == seen;
    }
  }

  /** Chunk k in numbers. */
  lemma ChunkArithmetic(b: nat, start: nat, k: nat, count: nat)
    requires BlockSize(b) && 64 * k < count
    ensures var cnt := Least(count - 64 * k, 64);
            && ChunkStart(b, count, k) == b * (64 * k) && ChunkStart(b, count, k + 1) == b * (64 * k) + b * cnt
            && b * (start + 64 * k) == b * start + b * (64 * k) && k < (count + 63) / 64
  {
    var cnt := Least(count - 64 * k, 64);
    assert Least(64 * (k + 1), count) == 64 * k + cnt;
  }

  /** The data is the bytes of `count` sectors from start on. */
  ghost predicate SectorBytes(p: Port, start: nat, count: nat, data: seq<Byte>)
    reads p
  {
    && p.Valid() && start + count <= |p.sectors| && |data| == p.blockSize * count
    && p.blockSize * start + |data| <= |p.Bytes()|
    && data == p.Bytes()[p.blockSize * start..p.blockSize * start + |data|]
  }

  lemma ChunkBytes(p: Port, start: nat, count: nat, data: seq<Byte>, k: nat, cnt: nat, c: seq<Byte>)
    requires SectorBytes(p, start, count, data) && 64 * k < count && cnt == Least(count - 64 * k, 64)
    requires var at := p.blockSize * (64 * k);
             at + p.blockSize * cnt <= |data| && c == data[at..at + p.blockSize * cnt]
    ensures SectorBytes(p, start + 64 * k, cnt, c)
  {
    var b := p.blockSize;
    ChunkArithmetic(b, start, k, count);
    SliceOfSlice(p.Bytes(), b * start, b * start + |data|, b * (64 * k), b * cnt);
  }

  method ReadChunk(p: Port, m: Machine, places: seq<Place>, raw: array<Byte>, start: nat, count: nat, k: nat,
                   ghost data: seq<Byte>, ghost ends: seq<nat>)
    requires SectorBytes(p, start, count, data) && 64 * k < count && ends == ChunkEnds(p.blockSize, count)
    requires PlacesMapped(places, ends, p.blockSize) && k < |places|
    requires raw.Length == |data| + 65536 && HoldsChunks(raw[..], data, ends, places, k)
    modifies m, raw
    ensures HoldsChunks(raw[..], data, ends, places, k + 1)
  {
    ghost var g, c := raw[..], Chunk(data, ends, k);
    ChunkFacts(p, start, count, data, ends, places, k, c);
    StoreChunk(p, m, places[k], raw, start + 64 * k, Least(count - 64 * k, 64), p.blockSize * (64 * k), c);
    NextChunk(g, raw[..], data, ends, places, k, p.blockSize);
  }

  lemma ChunkFacts(p: Port, start: nat, count: nat, data: seq<Byte>, ends: seq<nat>, places: seq<Place>, k: nat,
                   c: seq<Byte>)
    requires SectorBytes(p, start, count, data) && 64 * k < count && ends == ChunkEnds(p.blockSize, count)
    requires PlacesMapped(places, ends, p.blockSize) && k < |places| && Cuts(ends, |data|)
    requires c == Chunk(data, ends, k)
    ensures ends[k] == p.blockSize * (64 * k) && ends[k] + |c| == ends[k + 1] <= |data| && p.blockSize <= 65536
    ensures SectorBytes(p, start + 64 * k, Least(count - 64 * k, 64), c) && PlaceMapped(places[k], |c|, p.blockSize)
  {
    ChunkArithmetic(p.blockSize, start, k, count);
    ChunkBytes(p, start, count, data, k, Least(count - 64 * k, 64), c);
  }

  /** kmalloc_common has put the transfer buffer at q; the chunk goes through it. */
  method StoreChunk(p: Port, m: Machine, q: Place, raw: array<Byte>, lba: nat, cnt: nat, at: nat, ghost c: seq<Byte>)
    requires SectorBytes(p, lba, cnt, c) && 0 < cnt <= 64 && PlaceMapped(q, |c|, p.blockSize)
    requires at + |c| + p.blockSize <= raw.Length
    modifies m, raw
    ensures raw[..] == Splice(old(raw[..]), at, ArrivedAll(q.pages, q.v, c, |c| + p.blockSize))
  {
    m.pages := q.pages;
    p.ReadSectors(lba, cnt, m, q.v, raw, at, c);
  }

  /** The chunk loop of ahci_read over `count` sectors from start on. */
  method ReadChunks(p: Port, m: Machine, places: seq<Place>, raw: array<Byte>, start: nat, count: nat,
                    ghost data: seq<Byte>, ghost ends: seq<nat>)
    requires SectorBytes(p, start, count, data) && ends == ChunkEnds(p.blockSize, count)
    requires Cuts(ends, |data|) && PlacesMapped(places, ends, p.blockSize) && raw.Length == |data| + 65536
    modifies m, raw
    ensures HoldsChunks(raw[..], data, ends, places, |places|)
  {
    var i := 0;
    ghost var k: nat := 0;
    assert |places| == (count + 63) / 64;
    while i < count
      invariant 0 <= i == 64 * k < count + 64 && HoldsChunks(raw[..], data, ends, places, k)
    {
      assert i / 64 == k < |places|;
      ReadChunk(p, m, places, raw, start, count, i / 64, data, ends);
      i, k := i + 64, k + 1;
    }
    assert k == |places|;
  }

  /** The chunks into a raw buffer with slack, and the bytes asked for out of it. */
  method ReadWindow(p: Port, m: Machine, places: seq<Place>, buf: array<Byte>,
                    start: nat, count: nat, off: nat, length: nat, ghost data: seq<Byte>, ghost ends: seq<nat>)
    requires SectorBytes(p, start, count, data) && ends == ChunkEnds(p.blockSize, count)
    requires Cuts(ends, |data|) && PlacesMapped(places, ends, p.blockSize)
    requires off + length <= |data| && length <= buf.Length
    modifies m, buf
    ensures Delivered(old(buf[..]), buf[..], data, ends, places, off, length)
  {
    var raw := new Byte[p.blockSize * count + 65536](_ => 0);
    ReadChunks(p, m, places, raw, start, count, data, ends);
    ghost var all := Chunks(data, ends, places, |places|);
    assert all[0..|data|] == all && raw[..|data|] == raw[..][..|data|];
    CopyOut(all, 0, |data|, raw, off, buf, length);
  }

  /** A byte range within the data of its sectors. */
  ghost predicate RangeWithin(p: Port, location: nat, length: nat, start: nat, count: nat, off: nat, data: seq<Byte>)
    reads p
  {
    && SectorBytes(p, start, count, data) && location + length <= |p.Bytes()|
    && off + length <= |data| && data[off..off + length] == p.Bytes()[location..location + length]
  }

  /** The sectors of a byte range and the bytes they hold. */
  lemma TouchedSectors(p: Port, location: nat, length: nat)
    requires p.Valid() && length >= 1 && location + length <= p.blockSize * |p.sectors|
    ensures var b := p.blockSize;
            RangeWithin(p, location, length, location / b, SectorsOf(b, location, length), location % b,
                        Touched(p.Bytes(), b, location, length))
  {
    var b := p.blockSize;
    FlatLength(p.sectors, b);
    var s, e := location / b, (location + length - 1) / b;
    RangeOfSectors(location, length, b, s, e, |p.sectors|);
    MulAtMost(b, e + 1, |p.sectors|);
    var n := b * SectorsOf(b, location, length);
    assert b * (e + 1) == b * s + n;
    SliceOfSlice(p.Bytes(), b * s, b * s + n, location % b, length);
  }

  method ReadRange(p: Port, m: Machine, places: seq<Place>, buf: array<Byte>, ghost location: nat, length: nat,
                   start: nat, count: nat, off: nat, ghost data: seq<Byte>, ghost ends: seq<nat>)
    requires RangeWithin(p, location, length, start, count, off, data) && length <= buf.Length
    requires ends == ChunkEnds(p.blockSize, count) && PlacesMapped(places, ends, p.blockSize)
    modifies m, buf
    ensures Delivered(old(buf[..]), buf[..], data, ends, places, off, length)
    ensures AllInStep(places, ends) ==> buf[..] == Splice(old(buf[..]), 0, p.Bytes()[location..location + length])
  {
    ghost var g := buf[..];
    ChunkEndsCut(p.blockSize, count);
    ReadWindow(p, m, places, buf, start, count, off, length, data, ends);
    DeliveredInStep(g, buf[..], data, ends, places, off, length, p.blockSize);
  }

  /**
    ahci_read: the chunks into a buffer with 64 KiB of slack, then the copy
    out. The caller gets what arrived in the chunks, which is the flat slice
    when the frames of every transfer buffer are in step.
   */
  method AhciRead(p: Port, m: Machine, places: seq<Place>, buf: array<Byte>, location: nat, length: nat)
    requires p.Valid() && 1 <= length <= buf.Length && location + length <= p.blockSize * |p.sectors|
    requires PlacesMapped(places, RangeEnds(p.blockSize, location, length), p.blockSize)
    modifies m, buf
    ensures Delivered(old(buf[..]), buf[..], Touched(p.Bytes(), p.blockSize, location, length),
                      RangeEnds(p.blockSize, location, length), places, location % p.blockSize, length)
    ensures location + length <= |p.Bytes()|
    ensures AllInStep(places, RangeEnds(p.blockSize, location, length)) ==>
              buf[..] == Splice(old(buf[..]), 0, p.Bytes()[location..location + length])
  {
    var b := p.blockSize;
    TouchedSectors(p, location, length);
    var start, end := location / b, (location + length - 1) / b;
    ReadRange(p, m, places, buf, location, length, start, end - start + 1, location % b,
              Touched(p.Bytes(), b, location, length), RangeEnds(b, location, length));
  }
}
