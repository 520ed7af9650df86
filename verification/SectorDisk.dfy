/**
  A sector device seen as one flat byte array, and byte-addressed access to it
  by whole sectors: the arithmetic shared by kernel/src/drv/disk/ata.c,
  ata_dma.c and ahci.c.
 */
module SectorDisk {
  import opened Bits
  import opened ByteRanges

  type Sector = seq<Byte>

  /** Every sector holds b bytes. */
  predicate Uniform(ss: seq<Sector>, b: nat) {
    forall i | 0 <= i < |ss| :: |ss[i]| == b
  }

  /** The device as one byte array. */
  function Flat(ss: seq<Sector>): seq<Byte> {
    if ss == [] then [] else Flat(ss[..|ss| - 1]) + ss[|ss| - 1]
  }

  lemma {:induction false} FlatLength(ss: seq<Sector>, b: nat)
    requires Uniform(ss, b)
    ensures |Flat(ss)| == b * |ss|
    decreases |ss|
  {
    if ss != [] {
      FlatLength(ss[..|ss| - 1], b);
      assert b * |ss| == b * (|ss| - 1) + b;
    }
  }

  lemma {:induction false} FlatAppend(ss: seq<Sector>, ts: seq<Sector>)
    ensures Flat(ss + ts) == Flat(ss) + Flat(ts)
    decreases |ts|
  {
    if ts == [] {
      assert ss + ts == ss;
    } else {
      assert (ss + ts)[..|ss + ts| - 1] == ss + ts[..|ts| - 1];
      FlatAppend(ss, ts[..|ts| - 1]);
    }
  }

  /** Sector i occupies the bytes from b * i on. */
  lemma FlatSplit(ss: seq<Sector>, b: nat, i: nat)
    requires Uniform(ss, b) && i < |ss|
    ensures b * i + b <= |Flat(ss)| && |Flat(ss[..i])| == b * i
    ensures Flat(ss) == Flat(ss[..i]) + ss[i] + Flat(ss[i + 1..])
  {
    FlatLength(ss, b);
    FlatLength(ss[..i], b);
    NextMultiple(b, i, |ss|);
    FlatAround(ss, i);
  }

  lemma FlatAround(ss: seq<Sector>, i: nat)
    requires i < |ss|
    ensures Flat(ss) == Flat(ss[..i]) + ss[i] + Flat(ss[i + 1..])
  {
    var front, c := ss[..i + 1], ss[i + 1..];
    assert ss == front + c;
    FlatAppend(front, c);
    assert front[..|front| - 1] == ss[..i];
  }

  lemma NextMultiple(b: nat, i: nat, n: nat)
    requires i < n
    ensures b * i + b <= b * n
  {
    assert b * (i + 1) <= b * n;
  }

  /** Reading sector i reads its slice of the flat array. */
  lemma SectorIsSlice(ss: seq<Sector>, b: nat, i: nat, from: nat)
    requires Uniform(ss, b) && i < |ss| && from == b * i
    ensures from + b <= |Flat(ss)|
    ensures ss[i] == Flat(ss)[from..from + b]
  {
    FlatSplit(ss, b, i);
  }

  /** Writing sector i replaces its slice and nothing else. */
  lemma WriteIsSplice(ss: seq<Sector>, b: nat, i: nat, x: Sector, from: nat)
    requires Uniform(ss, b) && i < |ss| && |x| == b && from == b * i
    ensures from + b <= |Flat(ss)| && Uniform(ss[i := x], b)
    ensures Flat(ss[i := x]) == Flat(ss)[..from] + x + Flat(ss)[from + b..]
  {
    var ts := ss[i := x];
    FlatSplit(ss, b, i);
    FlatSplit(ts, b, i);
    assert ts[..i] == ss[..i] && ts[i + 1..] == ss[i + 1..];
  }

  /** The sectors that the bytes [location, location + length) touch. */
  function FirstSector(location: nat): nat {
    location / 512
  }

  function SectorCount(location: nat, length: nat): int {
    (location + length - 1) / 512 - location / 512 + 1
  }

  /** Those sectors cover the bytes, and no sector more than needed is touched. */
  lemma SectorsCover(location: nat, length: nat, capacity: nat)
    requires location + length >= 1 && location + length <= 512 * capacity
    ensures var s, n := FirstSector(location), SectorCount(location, length);
            && 0 <= n && s + n <= capacity
            && 512 * s <= location && location % 512 == location - 512 * s
            && (length >= 1 ==> n >= 1)
            && location + length <= 512 * (s + n)
            && (length >= 1 ==> location < 512 * s + 512 && 512 * (s + n) - 512 < location + length)
  {
  }
}
