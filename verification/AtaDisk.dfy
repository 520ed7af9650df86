/**
  ATA disks: ata_write and the PIO path of ata_read of
  kernel/src/drv/disk/ata.c over the loops of ata_pio.c.

  The drive is an array of 512-byte sectors. A data-port read or write moves
  one 16-bit word, low byte first.
 */
module AtaDisk {
  import opened Bits
  import opened ByteRanges
  import opened SectorDisk

  class Drive {
    const online: bool
    var sectors: seq<Sector>

    ghost predicate Valid()
      reads this
    {
      Uniform(sectors, 512) && |sectors| <= 0x100_0000
    }

    ghost function Bytes(): seq<Byte>
      reads this
    {
      Flat(sectors)
    }

    constructor (ss: seq<Sector>, present: bool)
      requires Uniform(ss, 512) && |ss| <= 0x100_0000
      ensures Valid() && sectors == ss && online == present
    {
      sectors, online := ss, present;
    }

    /** ata_pio_read_sector: 256 words from the data port into buf at offset at. */
    method PioReadSector(buf: array<Byte>, at: nat, lba: nat)
      requires Valid() && lba < |sectors| && at + 512 <= buf.Length
      modifies buf
      ensures buf[..] == Splice(old(buf[..]), at, sectors[lba])
    {
      var sector := sectors[lba % 0x100_0000];
      var i := 0;
      while i < 256
        invariant 0 <= i <= 256
        invariant forall k | 0 <= k < 2 * i :: buf[at + k] == sector[k]
        invariant forall k | 0 <= k < buf.Length && !(at <= k < at + 2 * i) :: buf[k] == old(buf[k])
      {
        buf[at + 2 * i] := sector[2 * i];
        buf[at + 2 * i + 1] := sector[2 * i + 1];
        i := i + 1;
      }
      assert forall k | at <= k < at + 512 :: buf[k] == sector[k - at] by {
        forall k | at <= k < at + 512 ensures buf[k] == sector[k - at] { assert buf[at + (k - at)] == sector[k - at]; }
      }
    }

    /** ata_pio_read_sectors */
    method PioReadSectors(buf: array<Byte>, lba: nat, count: nat)
      requires Valid() && lba + count <= |sectors| && 512 * count <= buf.Length
      modifies buf
      ensures 512 * (lba + count) <= |Bytes()|
      ensures buf[..512 * count] == Bytes()[512 * lba..512 * (lba + count)]
    {
      FlatLength(sectors, 512);
      var i := 0;
      while i < count
        invariant 0 <= i <= count
        invariant buf[..512 * i] == Bytes()[512 * lba..512 * (lba + i)]
      {
        SectorIsSlice(sectors, 512, lba + i, 512 * (lba + i));
        PioReadSector(buf, 512 * i, lba + i);
        i := i + 1;
      }
    }

    /** ata_pio_write_raw_sector: 256 words from buf at offset at to the data port. */
    method PioWriteSector(buf: array<Byte>, at: nat, lba: nat)
      requires Valid() && lba < |sectors| && at + 512 <= buf.Length
      modifies this
      ensures Valid() && |sectors| == old(|sectors|)
      ensures 512 * lba + 512 <= |old(Bytes())|
      ensures Bytes() == Splice(old(Bytes()), 512 * lba, buf[at..at + 512])
    {
      var sector := [];
      var i := 0;
      while i < 256
        invariant 0 <= i <= 256
        invariant sector == buf[at..at + 2 * i]
      {
        sector := sector + [buf[at + 2 * i], buf[at + 2 * i + 1]];
        i := i + 1;
      }
      WriteIsSplice(sectors, 512, lba, sector, 512 * lba);
      sectors := sectors[lba % 0x100_0000 := sector];
    }

    method WriteNext(buf: array<Byte>, i: nat, lba: nat, ghost f: seq<Byte>, ghost data: seq<Byte>)
      requires Valid() && lba + i < |sectors| && 512 * i + 512 <= buf.Length && data == buf[..]
      requires 512 * (lba + i) + 512 <= |f| && Bytes() == Splice(f, 512 * lba, data[..512 * i])
      modifies this
      ensures Valid() && |sectors| == old(|sectors|)
      ensures Bytes() == Splice(f, 512 * lba, data[..512 * i + 512])
    {
      SpliceGrows(f, 512 * lba, data, 512 * i, 512 * i + 512);
      assert buf[512 * i..512 * i + 512] == data[512 * i..512 * i + 512];
      PioWriteSector(buf, 512 * i, lba + i);
    }

    /** ata_pio_write_sectors */
    method PioWriteSectors(buf: array<Byte>, lba: nat, count: nat)
      requires Valid() && lba + count <= |sectors| && 512 * count <= buf.Length
      modifies this
      ensures Valid() && |sectors| == old(|sectors|)
      ensures 512 * (lba + count) <= |old(Bytes())|
      ensures Bytes() == Splice(old(Bytes()), 512 * lba, buf[..512 * count])
    {
      ghost var f, data := Bytes(), buf[..];
      FlatLength(sectors, 512);
      var i := 0;
      while i < count
        invariant 0 <= i <= count && Valid() && |sectors| == old(|sectors|)
        invariant Bytes() == Splice(f, 512 * lba, data[..512 * i])
      {
        WriteNext(buf, i, lba, f, data);
        i := i + 1;
      }
    }
  }

  /** ata_write: read the touched sectors, patch them, write them back. */
  method AtaWrite(d: Drive, buf: array<Byte>, location: nat, length: nat)
    requires d.Valid() && length <= buf.Length
    requires 1 <= location + length <= 512 * |d.sectors|
    modifies d
    ensures d.Valid() && |d.sectors| == old(|d.sectors|)
    ensures !d.online ==> d.Bytes() == old(d.Bytes())
    ensures location + length <= |old(d.Bytes())|
    ensures d.online ==> d.Bytes() == Splice(old(d.Bytes()), location, buf[..length])
  {
    FlatLength(d.sectors, 512);
    if !d.online {
      return;
    }
    SectorsCover(location, length, |d.sectors|);
    var start := location / 512;
    var count := (location + length - 1) / 512 - start + 1;
    PatchSectors(d, buf, start, count, location % 512, length);
  }

  /** The three steps of ata_write on the sectors from start on. */
  method PatchSectors(d: Drive, buf: array<Byte>, start: nat, count: nat, offset: nat, length: nat)
    requires d.Valid() && length <= buf.Length
    requires start + count <= |d.sectors| && offset + length <= 512 * count
    modifies d
    ensures d.Valid() && |d.sectors| == old(|d.sectors|)
    ensures 512 * start + offset + length <= |old(d.Bytes())|
    ensures d.Bytes() == Splice(old(d.Bytes()), 512 * start + offset, buf[..length])
  {
    ghost var f, data := d.Bytes(), buf[..length];
    FlatLength(d.sectors, 512);
    var temp := ReadPatched(d, buf, start, count, offset, length);
    SpliceWindow(f, 512 * start, 512 * (start + count), offset, data);
    d.PioWriteSectors(temp, start, count);
    assert temp[..512 * count] == temp[..];
  }

  /** The touched sectors with the new bytes in them. */
  method ReadPatched(d: Drive, buf: array<Byte>, start: nat, count: nat, offset: nat, length: nat)
    returns (temp: array<Byte>)
    requires d.Valid() && length <= buf.Length
    requires start + count <= |d.sectors| && offset + length <= 512 * count
    ensures fresh(temp) && temp.Length == 512 * count && 512 * (start + count) <= |d.Bytes()|
    ensures temp[..] == Splice(d.Bytes()[512 * start..512 * (start + count)], offset, buf[..length])
  {
    temp := new Byte[count * 512](_ => 0);
    d.PioReadSectors(temp, start, count);
    assert temp[..512 * count] == temp[..];
    CopyBytes(temp, offset, buf, 0, length);
    assert buf[0..length] == buf[..length];
  }

  /** The PIO path of ata_read. */
  method AtaReadPio(d: Drive, buf: array<Byte>, location: nat, length: nat)
    requires d.Valid() && d.online && length <= buf.Length
    requires 1 <= location + length <= 512 * |d.sectors|
    modifies buf
    ensures location + length <= |d.Bytes()|
    ensures buf[..] == Splice(old(buf[..]), 0, d.Bytes()[location..location + length])
  {
    FlatLength(d.sectors, 512);
    SectorsCover(location, length, |d.sectors|);
    var start := location / 512;
    var count := (location + length - 1) / 512 - start + 1;
    PioReadWindow(d, buf, start, count, location % 512, length);
  }

  /** Whole sectors into a raw buffer, and the bytes asked for out of it. */
  method PioReadWindow(d: Drive, buf: array<Byte>, start: nat, count: nat, offset: nat, length: nat)
    requires d.Valid() && start + count <= |d.sectors| && offset + length <= 512 * count && length <= buf.Length
    modifies buf
    ensures 512 * (start + count) <= |d.Bytes()|
    ensures buf[..] == Splice(old(buf[..]), 0, d.Bytes()[512 * start + offset..512 * start + offset + length])
  {
    var raw := new Byte[count * 512](_ => 0);
    d.PioReadSectors(raw, start, count);
    CopyOut(d.Bytes(), 512 * start, 512 * (start + count), raw, offset, buf, length);
  }
}
