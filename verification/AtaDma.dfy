/**
  The DMA path of ata_read in kernel/src/drv/disk/ata.c: the tables and
  transfers of ata_dma.c, from the disk through physical memory to the caller.

  Where kmalloc_common puts the buffer, its first page v and the map by then,
  is a parameter. The caller's memory is not among the frames that a transfer
  gone astray hits.
 */
module AtaDma {
  import opened Bits
  import opened ByteRanges
  import opened SectorDisk
  import opened PageMapping
  import opened DmaMemory
  import opened DmaMachine
  import opened AtaDisk

  /** A PRDT entry; a transfer size of 0 means 65536 bytes. */
  datatype Prd = Prd(address: nat, size: nat, markEnd: bool) {
    function Bytes(): nat { if size == 0 then 65536 else size }
  }

  /** The first n entries describe `total` bytes from phys on, the last one marked. */
  ghost predicate Describes(p: seq<Prd>, n: nat, phys: nat, total: nat) {
    && 0 < n <= |p|
    && (forall k | 0 <= k < n :: p[k].address == phys + 65536 * k)
    && (forall k | 0 <= k < n - 1 :: p[k].Bytes() == 65536 && !p[k].markEnd)
    && p[n - 1].markEnd && 65536 * (n - 1) + p[n - 1].Bytes() == total
  }

  /** Such a table covers every byte of the buffer once, and nothing else. */
  lemma CoversOnce(p: seq<Prd>, n: nat, phys: nat, total: nat, a: nat)
    requires Describes(p, n, phys, total) && p[n - 1].Bytes() <= 65536
    ensures phys <= a < phys + total <==> exists k :: 0 <= k < n && p[k].address <= a < p[k].address + p[k].Bytes()
    ensures forall j, k | 0 <= j < n && 0 <= k < n
                          && p[j].address <= a < p[j].address + p[j].Bytes()
                          && p[k].address <= a < p[k].address + p[k].Bytes() :: j == k
  {
    if phys <= a < phys + total {
      var k := (a - phys) / 65536;
      assert 0 <= k < n && p[k].address <= a < p[k].address + p[k].Bytes();
    }
  }

  /** The PRDT filling of ata_dma_read_sectors. */
  method FillPrdt(prdt: array<Prd>, phys: nat, bytes: nat) returns (n: nat)
    requires prdt.Length == 16 && 0 < bytes <= 131072
    modifies prdt
    ensures Describes(prdt[..], n, phys, bytes) && prdt[n - 1].Bytes() <= 65536
  {
    var i, left := 0, bytes;
    while left >= 65536
      invariant 0 <= i <= 2 && left + 65536 * i == bytes
      invariant forall k | 0 <= k < i :: prdt[k] == Prd(phys + k * 65536, 0, false)
    {
      left := left - 65536;
      prdt[i] := Prd(phys + i * 65536, 0, false);
      i := i + 1;
    }
    if left != 0 {
      prdt[i] := Prd(phys + i * 65536, left, true);
      n := i + 1;
    } else {
      prdt[i - 1] := prdt[i - 1].(markEnd := true);
      n := i;
    }
  }

  /** The controller: stores the drive's data where the table says, up to the mark. */
  method Transfer(prdt: array<Prd>, ghost n: nat, phys: nat, m: Machine, data: seq<Byte>)
    requires Describes(prdt[..], n, phys, |data|)
    modifies m`ram
    ensures Received(old(m.ram), m.ram, phys, data)
  {
    var k := 0;
    ghost var r, done: nat := m.ram, 0;
    assert data[..0] == [];
    while true
      invariant 0 <= k < n && done == 65536 * k <= |data| && Received(r, m.ram, phys, data[..done])
      decreases n - k
    {
      var e := prdt[..][k];
      ghost var r1 := m.ram;
      m.Receive(e.address, data[65536 * k..65536 * k + e.Bytes()]);
      ReceivedNext(r, r1, m.ram, phys, data, done, done + e.Bytes());
      done := done + e.Bytes();
      if e.markEnd {
        assert data[..done] == data;
        return;
      }
      k := k + 1;
    }
  }

  /** The sector count register: 0 stands for 256. */
  function Requested(numsects: nat): nat {
    if numsects == 0 then 256 else numsects
  }

  /** ata_dma_read_sectors into the buffer at page v: its sectors go to the frame of page v and what follows it. */
  method DmaReadSectors(d: Drive, prdt: array<Prd>, m: Machine, v: nat, lba: nat, numsects: nat)
    requires d.Valid() && d.online && prdt.Length == 16 && numsects < 256
    requires lba + Requested(numsects) <= |d.sectors|
    modifies prdt, m`ram
    ensures 512 * (lba + Requested(numsects)) <= |d.Bytes()|
    ensures Received(old(m.ram), m.ram, PhysOf(m.pages, v), d.Bytes()[512 * lba..512 * (lba + Requested(numsects))])
  {
    FlatLength(d.sectors, 512);
    var n := Requested(numsects);
    var phys := PhysOf(m.pages, v);
    var entries := FillPrdt(prdt, phys, if numsects == 0 then 256 * 512 else numsects * 512);
    Transfer(prdt, entries, phys, m, Flat(d.sectors)[512 * lba..512 * (lba + n)]);
  }

  lemma ClusterSlice(f: seq<Byte>, start: nat, data: seq<Byte>, k: nat, n: nat)
    requires 512 * start + |data| <= |f| && data == f[512 * start..512 * start + |data|]
    requires Covered(k, |data|) == 131072 * k && Covered(k + 1, |data|) == 131072 * k + 512 * n
    ensures 512 * (start + 256 * k + n) <= |f|
    ensures f[512 * (start + 256 * k)..512 * (start + 256 * k + n)] == data[Covered(k, |data|)..Covered(k + 1, |data|)]
  {
    SliceOfSlice(f, 512 * start, 512 * start + |data|, 131072 * k, 512 * n);
  }

  /** Request k of ata_dma_read. */
  method DmaReadCluster(d: Drive, prdt: array<Prd>, m: Machine, v: nat, start: nat, k: nat, numsects: nat,
                        ghost r: Ram, ghost data: seq<Byte>)
    requires d.Valid() && d.online && prdt.Length == 16 && numsects < 256
    requires start + 256 * k + Requested(numsects) <= |d.sectors|
    requires 512 * start + |data| <= |d.Bytes()| && data == d.Bytes()[512 * start..512 * start + |data|]
    requires Covered(k, |data|) == 131072 * k && Covered(k + 1, |data|) == 131072 * k + 512 * Requested(numsects)
    requires AfterRequests(r, m.ram, m.pages, v, data, k)
    modifies prdt, m`ram
    ensures AfterRequests(r, m.ram, m.pages, v, data, k + 1)
  {
    ghost var r1 := m.ram;
    ClusterSlice(d.Bytes(), start, data, k, Requested(numsects));
    DmaReadSectors(d, prdt, m, v + 32 * k, start + 256 * k, numsects);
    NextRequest(r, r1, m.ram, m.pages, v, data, k);
  }

  method DmaReadClusters(d: Drive, prdt: array<Prd>, m: Machine, v: nat, start: nat, count: nat, ghost data: seq<Byte>)
    requires d.Valid() && d.online && prdt.Length == 16 && start + count <= |d.sectors|
    requires |data| == 512 * count && 512 * start + |data| <= |d.Bytes()|
    requires data == d.Bytes()[512 * start..512 * start + |data|]
    modifies prdt, m`ram
    ensures AfterRequests(old(m.ram), m.ram, m.pages, v, data, Requests(|data|))
  {
    ghost var r := m.ram;
    var clusters, remaining := count / 256, count % 256;
    var i := 0;
    while i < clusters
      invariant 0 <= i <= clusters && AfterRequests(r, m.ram, m.pages, v, data, i)
    {
      DmaReadCluster(d, prdt, m, v, start, i, 0, r, data);
      i := i + 1;
    }
    if remaining != 0 {
      DmaReadCluster(d, prdt, m, v, start, i, remaining, r, data);
    }
  }

  /** The bytes of the sectors that a byte range touches. */
  function Touched(f: seq<Byte>, location: nat, length: nat): seq<Byte> {
    var s, n := FirstSector(location), SectorCount(location, length);
    if 0 <= n && 512 * (s + n) <= |f| then f[512 * s..512 * (s + n)] else []
  }

  /** Sectors into the buffer at page v, and the bytes asked for out of it. */
  method DmaReadWindow(d: Drive, prdt: array<Prd>, m: Machine, v: nat, buf: array<Byte>,
                       start: nat, count: nat, offset: nat, length: nat, ghost data: seq<Byte>)
    requires d.Valid() && d.online && prdt.Length == 16 && start + count <= |d.sectors|
    requires |data| == 512 * count && 512 * start + |data| <= |d.Bytes()|
    requires data == d.Bytes()[512 * start..512 * start + |data|]
    requires offset + length <= |data| && length <= buf.Length
    requires Injective(m.pages) && MappedRange(m.pages, v, PagesOf(|data|))
    modifies prdt, m`ram, buf
    ensures buf[..] == Splice(old(buf[..]), 0, ArrivedAll(m.pages, v, data, |data|)[offset..offset + length])
  {
    m.Clear(v, 512 * count);
    ghost var r := m.ram;
    DmaReadClusters(d, prdt, m, v, start, count, data);
    forall y | 0 <= y < |data|
      ensures ByteAt(m.pages, m.ram, v, y) == Arrived(m.pages, v, data, y)
    {
      PageWithin(v, |data|, y);
      SeenIsArrived(r, m.ram, m.pages, v, data, y);
    }
    m.CopyTo(buf, 0, v, offset, length, ArrivedAll(m.pages, v, data, |data|));
  }

  /**
    ata_dma_read: clusters of 256 sectors, then the rest. The caller gets what
    arrived, which is the flat slice when the frames are in step.
   */
  method AtaReadDma(d: Drive, prdt: array<Prd>, m: Machine, v: nat, buf: array<Byte>, location: nat, length: nat)
    requires d.Valid() && d.online && prdt.Length == 16 && length <= buf.Length
    requires 1 <= location + length <= 512 * |d.sectors|
    requires Injective(m.pages) && MappedRange(m.pages, v, PagesOf(|Touched(d.Bytes(), location, length)|))
    modifies prdt, m`ram, buf
    ensures var data := Touched(d.Bytes(), location, length);
            && location % 512 + length <= |data|
            && buf[..] == Splice(old(buf[..]), 0,
                                 ArrivedAll(m.pages, v, data, |data|)[location % 512..location % 512 + length])
    ensures location + length <= |d.Bytes()|
    ensures InStep(m.pages, v, |Touched(d.Bytes(), location, length)|) ==>
              buf[..] == Splice(old(buf[..]), 0, d.Bytes()[location..location + length])
  {
    ghost var data := Touched(d.Bytes(), location, length);
    FlatLength(d.sectors, 512);
    SectorsCover(location, length, |d.sectors|);
    var start := location / 512;
    var count := (location + length - 1) / 512 - start + 1;
    TouchedWindow(d.Bytes(), location, length, m.pages, v);
    DmaReadWindow(d, prdt, m, v, buf, start, count, location % 512, length, data);
  }

  lemma TouchedWindow(f: seq<Byte>, location: nat, length: nat, pages: PageMap, v: nat)
    requires location + length >= 1 && 0 <= SectorCount(location, length)
    requires 512 * (FirstSector(location) + SectorCount(location, length)) <= |f|
    requires location + length <= 512 * (FirstSector(location) + SectorCount(location, length))
    requires Injective(pages) && MappedRange(pages, v, PagesOf(|Touched(f, location, length)|))
    ensures var data, off := Touched(f, location, length), location % 512;
            && off + length <= |data| && data[off..off + length] == f[location..location + length]
            && (InStep(pages, v, |data|) ==>
                  ArrivedAll(pages, v, data, |data|)[off..off + length] == f[location..location + length])
  {
    var data, off := Touched(f, location, length), location % 512;
    var s, n := FirstSector(location), SectorCount(location, length);
    SliceOfSlice(f, 512 * s, 512 * (s + n), off, length);
    if InStep(pages, v, |data|) {
      ArrivedInStep(pages, v, data, |data|);
      assert ArrivedAll(pages, v, data, |data|) == data;
    }
  }

  /** For every byte range: it is read right, whatever the disk holds, exactly if the frames are in step. */
  lemma AtaDmaExactly(pages: PageMap, v: nat, location: nat, length: nat, n: nat)
    requires length >= 1 && n == 512 * SectorCount(location, length)
    requires Injective(pages) && MappedRange(pages, v, PagesOf(n))
    ensures location % 512 + length <= n
    ensures AlwaysArrives(pages, v, n, location % 512, length) <==> InStep(pages, v, n)
  {
    SectorsCover(location, length, (location + length) / 512 + 1);
    LastPage(SectorCount(location, length), location % 512 + length);
    DmaExactly(pages, v, n, location % 512, length);
  }

  lemma LastPage(count: nat, end: nat)
    requires 0 < count && 512 * (count - 1) < end
    ensures 4096 * (PagesOf(512 * count) - 1) < end
  {
    var k, r := count / 8, count % 8;
    assert count == 8 * k + r;
    assert PagesOf(512 * count) == if r == 0 then k else k + 1;
  }

  /** ata_read for a disk drive: by DMA when the drive and the controller have it. */
  method AtaRead(d: Drive, isDma: bool, bar4: nat, prdt: array<Prd>, m: Machine, v: nat,
                 buf: array<Byte>, location: nat, length: nat)
    requires d.Valid() && prdt.Length == 16 && length <= buf.Length
    requires 1 <= location + length <= 512 * |d.sectors|
    requires Injective(m.pages) && MappedRange(m.pages, v, PagesOf(|Touched(d.Bytes(), location, length)|))
    modifies prdt, m`ram, buf
    ensures location + length <= |d.Bytes()|
    ensures !d.online ==> buf[..] == old(buf[..])
    ensures d.online && (isDma && bar4 != 0 ==> InStep(m.pages, v, |Touched(d.Bytes(), location, length)|)) ==>
              buf[..] == Splice(old(buf[..]), 0, d.Bytes()[location..location + length])
  {
    FlatLength(d.sectors, 512);
    if !d.online {
      return;
    }
    if isDma && bar4 != 0 {
      AtaReadDma(d, prdt, m, v, buf, location, length);
    } else {
      AtaReadPio(d, buf, location, length);
    }
  }

  /** Reading back what was written returns it: by PIO always, by DMA when the frames are in step. */
  method ReadBack(d: Drive, isDma: bool, bar4: nat, prdt: array<Prd>, m: Machine, v: nat,
                  data: array<Byte>, buf: array<Byte>, location: nat)
    requires d.Valid() && d.online && prdt.Length == 16 && data.Length == buf.Length && data != buf
    requires 1 <= location + data.Length <= 512 * |d.sectors|
    requires Injective(m.pages) && MappedRange(m.pages, v, PagesOf(|Touched(d.Bytes(), location, data.Length)|))
    modifies d, prdt, m`ram, buf
    ensures (isDma && bar4 != 0 ==> InStep(m.pages, v, |Touched(d.Bytes(), location, data.Length)|)) ==>
              buf[..] == data[..]
  {
    ghost var f, g := d.Bytes(), buf[..];
    FlatLength(d.sectors, 512);
    AtaWrite(d, data, location, data.Length);
    assert data[..data.Length] == data[..];
    SpliceTaken(f, location, data[..]);
    WholeSplice(g, data[..]);
    AtaRead(d, isDma, bar4, prdt, m, v, buf, location, buf.Length);
  }
}
