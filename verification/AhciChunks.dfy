/**
  What arrives when ahci_read of kernel/src/drv/disk/ahci.c reads a byte range
  in chunks of 64 sectors, each through a transfer buffer of its own.
 */
module AhciChunks {
  import opened Bits
  import opened ByteRanges
  import opened PageMapping
  import opened DmaMemory

  lemma OneRequest(r: Ram, r': Ram, pages: PageMap, v: nat, data: seq<Byte>)
    requires 0 < |data| <= 131072 && Received(r, r', PhysOf(pages, v), data)
    ensures AfterRequests(r, r', pages, v, data, Requests(|data|))
  {
    assert AfterRequests(r, r, pages, v, data, 0);
    assert data[Covered(0, |data|)..Covered(1, |data|)] == data;
    NextRequest(r, r, r', pages, v, data, 0);
  }

  // ------------------------------------------------------- data cut into chunks

  /** Chunk k of n bytes goes from ends[k] to ends[k + 1]. */
  ghost predicate Cuts(ends: seq<nat>, n: nat) {
    && |ends| > 0 && ends[0] == 0 && ends[|ends| - 1] == n
    && forall j, k | 0 <= j <= k < |ends| :: ends[j] <= ends[k]
  }

  /** The map and the first page of a transfer buffer. */
  datatype Place = Place(pages: PageMap, v: nat)

  function Chunk(data: seq<Byte>, ends: seq<nat>, k: nat): (c: seq<Byte>)
    requires k + 1 < |ends| && ends[k] <= ends[k + 1] <= |data|
  {
    data[ends[k]..ends[k + 1]]
  }

  /** What the raw buffer holds of the data after k chunks. */
  ghost function Chunks(data: seq<Byte>, ends: seq<nat>, places: seq<Place>, k: nat): (r: seq<Byte>)
    requires Cuts(ends, |data|) && k <= |places| && |ends| == |places| + 1
    ensures |r| == ends[k]
  {
    if k == 0 then []
    else
      var c, q := Chunk(data, ends, k - 1), places[k - 1];
      Chunks(data, ends, places, k - 1) + ArrivedAll(q.pages, q.v, c, |c|)
  }

  /** The transfer buffer of a chunk of n bytes, with the sector of b bytes behind it, is mapped. */
  ghost predicate PlaceMapped(q: Place, n: nat, b: nat) {
    Injective(q.pages) && MappedRange(q.pages, q.v, PagesOf(n + b))
  }

  ghost predicate PlacesMapped(places: seq<Place>, ends: seq<nat>, b: nat) {
    && |ends| == |places| + 1
    && forall k {:trigger places[k]} | 0 <= k < |places| ::
         ends[k] <= ends[k + 1] && PlaceMapped(places[k], ends[k + 1] - ends[k], b)
  }

  predicate PlaceInStep(q: Place, n: nat) { InStep(q.pages, q.v, n) }

  /** The frames of every transfer buffer are in step. */
  predicate AllInStep(places: seq<Place>, ends: seq<nat>) {
    && |ends| == |places| + 1
    && forall k {:trigger places[k]} | 0 <= k < |places| ::
         ends[k] <= ends[k + 1] && PlaceInStep(places[k], ends[k + 1] - ends[k])
  }

  /** The spill of a chunk lies behind the bytes that count so far. */
  lemma SpillIsBehind(g: seq<Byte>, at: nat, x: seq<Byte>, z: seq<Byte>)
    requires at + |x| + |z| <= |g|
    ensures Splice(g, at, x + z)[..at + |x|] == g[..at] + x
  {
  }

  /** A chunk and its spill, stored behind the chunks before it. */
  lemma ChunkStored(g: seq<Byte>, at: nat, q: Place, c: seq<Byte>, b: nat)
    requires at + |c| + b <= |g|
    ensures Splice(g, at, ArrivedAll(q.pages, q.v, c, |c| + b))[..at + |c|]
            == g[..at] + ArrivedAll(q.pages, q.v, c, |c|)
  {
    var all, front := ArrivedAll(q.pages, q.v, c, |c| + b), ArrivedAll(q.pages, q.v, c, |c|);
    assert all == front + all[|c|..];
    SpillIsBehind(g, at, front, all[|c|..]);
  }

  /** The raw buffer holds the first k chunks. */
  ghost predicate HoldsChunks(g: seq<Byte>, data: seq<Byte>, ends: seq<nat>, places: seq<Place>, k: nat) {
    && Cuts(ends, |data|) && k <= |places| && |ends| == |places| + 1
    && ends[k] <= |g| && g[..ends[k]] == Chunks(data, ends, places, k)
  }

  /** The caller's buffer got len bytes of all chunks from off on. */
  ghost predicate Delivered(was: seq<Byte>, now: seq<Byte>, data: seq<Byte>, ends: seq<nat>, places: seq<Place>,
                            off: nat, len: nat)
  {
    && Cuts(ends, |data|) && |ends| == |places| + 1 && off + len <= |data| && len <= |was|
    && now == Splice(was, 0, Chunks(data, ends, places, |places|)[off..off + len])
  }

  lemma DeliveredInStep(was: seq<Byte>, now: seq<Byte>, data: seq<Byte>, ends: seq<nat>, places: seq<Place>,
                        off: nat, len: nat, b: nat)
    requires Delivered(was, now, data, ends, places, off, len) && PlacesMapped(places, ends, b)
    ensures AllInStep(places, ends) ==> now == Splice(was, 0, data[off..off + len])
  {
    if AllInStep(places, ends) { InStepWindow(data, ends, places, b, off, len); }
  }

  lemma NextChunk(g: seq<Byte>, g': seq<Byte>, data: seq<Byte>, ends: seq<nat>, places: seq<Place>, k: nat, b: nat)
    requires HoldsChunks(g, data, ends, places, k) && k < |places| && ends[k + 1] + b <= |g|
    requires var c := Chunk(data, ends, k);
             g' == Splice(g, ends[k], ArrivedAll(places[k].pages, places[k].v, c, |c| + b))
    ensures HoldsChunks(g', data, ends, places, k + 1)
  {
    ChunkStored(g, ends[k], places[k], Chunk(data, ends, k), b);
  }

  // ------------------------------------------------------- the exact condition

  lemma ChunkInStep(q: Place, c: seq<Byte>, b: nat)
    requires PlaceMapped(q, |c|, b) && PlaceInStep(q, |c|)
    ensures ArrivedAll(q.pages, q.v, c, |c|) == c
  {
    assert PagesOf(|c|) <= PagesOf(|c| + b);
    ArrivedInStep(q.pages, q.v, c, |c|);
  }

  /** With every transfer buffer in step the chunks hold the data. */
  lemma {:induction false} InStepChunks(data: seq<Byte>, ends: seq<nat>, places: seq<Place>, b: nat, k: nat)
    requires Cuts(ends, |data|) && PlacesMapped(places, ends, b) && AllInStep(places, ends) && k <= |places|
    ensures Chunks(data, ends, places, k) == data[..ends[k]]
    decreases k
  {
    if k > 0 {
      InStepChunks(data, ends, places, b, k - 1);
      var q := places[k - 1];
      ChunkInStep(q, Chunk(data, ends, k - 1), b);
      Glue(data, ends[k - 1], ends[k]);
    }
  }

  lemma Glue(data: seq<Byte>, i: nat, j: nat)
    requires i <= j <= |data|
    ensures data[..i] + data[i..j] == data[..j]
  {
  }

  lemma InStepWindow(data: seq<Byte>, ends: seq<nat>, places: seq<Place>, b: nat, off: nat, len: nat)
    requires Cuts(ends, |data|) && PlacesMapped(places, ends, b) && AllInStep(places, ends) && off + len <= |data|
    ensures Chunks(data, ends, places, |places|)[off..off + len] == data[off..off + len]
  {
    InStepChunks(data, ends, places, b, |places|);
    assert data[..|data|] == data;
  }

  /** Byte y of chunk k, seen in all of them. */
  lemma {:induction false} ChunksAt(data: seq<Byte>, ends: seq<nat>, places: seq<Place>, k: nat, n: nat, y: nat)
    requires Cuts(ends, |data|) && k < n <= |places| && |ends| == |places| + 1 && ends[k] + y < ends[k + 1]
    ensures ends[k] + y < ends[n]
    ensures Chunks(data, ends, places, n)[ends[k] + y]
            == Arrived(places[k].pages, places[k].v, Chunk(data, ends, k), y)
    decreases n
  {
    assert ends[k + 1] <= ends[n];
    if k < n - 1 {
      ChunksAt(data, ends, places, k, n - 1, y);
      assert ends[k + 1] <= ends[n - 1];
    }
  }

  /** The bytes from off on come through, whatever the disk holds. */
  ghost predicate AlwaysRead(places: seq<Place>, ends: seq<nat>, n: nat, off: nat, len: nat)
    requires Cuts(ends, n) && |ends| == |places| + 1 && off + len <= n
  {
    forall data: seq<Byte> | |data| == n ::
      Chunks(data, ends, places, |places|)[off..off + len] == data[off..off + len]
  }

  lemma SingleChunk(n: nat, ends: seq<nat>, k: nat, y: nat)
    requires Cuts(ends, n) && k + 1 < |ends| && ends[k] + y < ends[k + 1] <= n
    ensures Chunk(Single(n, ends[k] + y), ends, k) == Single(ends[k + 1] - ends[k], y)
  {
  }

  /** A byte on a page out of step is lost in the chunks. */
  lemma LostInChunk(places: seq<Place>, ends: seq<nat>, n: nat, k: nat, y: nat)
    requires Cuts(ends, n) && |ends| == |places| + 1 && k < |places| && ends[k] + y < ends[k + 1] <= n
    requires !PageInStep(places[k].pages, places[k].v, places[k].v + y / 4096)
    ensures Chunks(Single(n, ends[k] + y), ends, places, |places|)[ends[k] + y] == 0
  {
    var data := Single(n, ends[k] + y);
    SingleChunk(n, ends, k, y);
    LostHere(places[k], Chunk(data, ends, k), ends[k + 1] - ends[k], y);
    ChunksAt(data, ends, places, k, |places|, y);
  }

  lemma LostHere(q: Place, c: seq<Byte>, n: nat, y: nat)
    requires y < n && c == Single(n, y) && !PageInStep(q.pages, q.v, q.v + y / 4096)
    ensures Arrived(q.pages, q.v, c, y) == 0
  {
    OutOfStepFails(q.pages, q.v, n, y);
  }

  lemma SpoilsWindow(places: seq<Place>, ends: seq<nat>, n: nat, off: nat, len: nat, at: nat)
    requires Cuts(ends, n) && |ends| == |places| + 1 && off <= at < off + len <= n
    requires Chunks(Single(n, at), ends, places, |places|)[at] == 0
    ensures !AlwaysRead(places, ends, n, off, len)
  {
    var data := Single(n, at);
    var all := Chunks(data, ends, places, |places|);
    assert all[off..off + len][at - off] == all[at] && data[off..off + len][at - off] == data[at];
  }

  /** The window from off on reaches into every page but the first of every chunk. */
  ghost predicate ReachesPages(ends: seq<nat>, off: nat, len: nat) {
    forall k: nat, j: nat | PageInChunk(ends, k, j) :: off <= ends[k] + 4096 * j < off + len
  }

  /** Page j of chunk k, not its first one. */
  predicate PageInChunk(ends: seq<nat>, k: nat, j: nat) {
    k + 1 < |ends| && 0 < j && ends[k] + 4096 * j < ends[k + 1]
  }

  lemma OutOfStepChunk(places: seq<Place>, ends: seq<nat>, n: nat, off: nat, len: nat, k: nat)
    requires Cuts(ends, n) && |ends| == |places| + 1 && off + len <= n && ReachesPages(ends, off, len)
    requires k < |places| && ends[k] <= ends[k + 1] <= n && !PlaceInStep(places[k], ends[k + 1] - ends[k])
    ensures !AlwaysRead(places, ends, n, off, len)
  {
    var q, c := places[k], ends[k + 1] - ends[k];
    var p :| q.v <= p < q.v + PagesOf(c) && !PageInStep(q.pages, q.v, p);
    FirstPageInStep(q.pages, q.v);
    var j := p - q.v;
    PageStart(c, j);
    assert PageInChunk(ends, k, j);
    LostInChunk(places, ends, n, k, 4096 * j);
    SpoilsWindow(places, ends, n, off, len, ends[k] + 4096 * j);
  }

  lemma PageStart(c: nat, j: nat)
    requires j < PagesOf(c)
    ensures 4096 * j < c && 4096 * j / 4096 == j
  {
  }

  /**
    Such a window is read right, whatever the disk holds, exactly if the frames
    of every transfer buffer are in step.
   */
  lemma AhciExactly(places: seq<Place>, ends: seq<nat>, n: nat, b: nat, off: nat, len: nat)
    requires Cuts(ends, n) && PlacesMapped(places, ends, b) && off + len <= n && ReachesPages(ends, off, len)
    ensures AlwaysRead(places, ends, n, off, len) <==> AllInStep(places, ends)
  {
    if AllInStep(places, ends) {
      forall data: seq<Byte> | |data| == n
        ensures Chunks(data, ends, places, |places|)[off..off + len] == data[off..off + len]
      {
        InStepWindow(data, ends, places, b, off, len);
      }
    } else {
      var k :| 0 <= k < |places| && !PlaceInStep(places[k], ends[k + 1] - ends[k]);
      OutOfStepChunk(places, ends, n, off, len, k);
    }
  }

  // ------------------------------------------------------- chunks of 64 sectors

  predicate BlockSize(b: nat) {
    b == 512 || b == 2048
  }

  function Least(a: nat, b: nat): nat {
    if a < b then a else b
  }

  /** Where chunk k of `count` sectors starts. */
  function ChunkStart(b: nat, count: nat, k: nat): nat { b * Least(64 * k, count) }

  /** The chunks of ahci_read. */
  function ChunkEnds(b: nat, count: nat): (ends: seq<nat>)
    ensures |ends| == (count + 63) / 64 + 1 && forall k | 0 <= k < |ends| :: ends[k] == ChunkStart(b, count, k)
  {
    seq((count + 63) / 64 + 1, k requires 0 <= k => ChunkStart(b, count, k))
  }

  lemma ChunkEndsCut(b: nat, count: nat)
    requires BlockSize(b)
    ensures Cuts(ChunkEnds(b, count), b * count)
  {
  }

  /** The window of a byte range reaches into every page. */
  lemma RangeReachesPages(b: nat, count: nat, off: nat, len: nat)
    requires BlockSize(b) && count > 0 && off < b && b * (count - 1) < off + len
    ensures ReachesPages(ChunkEnds(b, count), off, len)
  {
    var ends := ChunkEnds(b, count);
    forall k: nat, j: nat | PageInChunk(ends, k, j)
      ensures off <= ends[k] + 4096 * j < off + len
    {
      PageInRange(b, count, k, j);
    }
  }

  lemma PageInRange(b: nat, count: nat, k: nat, j: nat)
    requires BlockSize(b) && count > 0 && ChunkStart(b, count, k) + 4096 * j < ChunkStart(b, count, k + 1)
    ensures ChunkStart(b, count, k) + 4096 * j <= b * (count - 1)
  {
    assert Least(64 * k, count) == 64 * k;
  }

  /** For every byte range: it is read right, whatever the disk holds, exactly if all frames are in step. */
  lemma AhciRangeExactly(places: seq<Place>, b: nat, count: nat, off: nat, len: nat)
    requires BlockSize(b) && count > 0 && PlacesMapped(places, ChunkEnds(b, count), b)
    requires off < b && b * (count - 1) < off + len <= b * count
    ensures Cuts(ChunkEnds(b, count), b * count)
    ensures AlwaysRead(places, ChunkEnds(b, count), b * count, off, len) <==> AllInStep(places, ChunkEnds(b, count))
  {
    ChunkEndsCut(b, count);
    RangeReachesPages(b, count, off, len);
    AhciExactly(places, ChunkEnds(b, count), b * count, b, off, len);
  }

  // ------------------------------------------------------- byte ranges

  /** The first sector and the number of sectors of a byte range, for any block size. */
  lemma RangeOfSectors(location: nat, length: nat, b: nat, s: nat, e: nat, capacity: nat)
    requires b > 0 && 1 <= length && location + length <= b * capacity
    requires s == location / b && e == (location + length - 1) / b
    ensures s <= e < capacity && location % b == location - b * s
    ensures b * s <= location && location + length <= b * (e + 1)
  {
    Quotient(location, b);
    Quotient(location + length - 1, b);
    if e < s { MulAtMost(b, e + 1, s); }
    if e >= capacity { MulAtMost(b, capacity, e); }
    assert b * (e + 1) == b * e + b;
  }

  lemma Quotient(x: nat, b: nat)
    requires b > 0
    ensures 0 <= x / b && b * (x / b) <= x < b * (x / b) + b && x % b == x - b * (x / b)
  {
  }

  lemma MulAtMost(b: nat, i: nat, j: nat)
    requires i <= j
    ensures b * i <= b * j
  {
  }

  function SectorsOf(b: nat, location: nat, length: nat): nat
    requires BlockSize(b) && length >= 1
  {
    (location + length - 1) / b - location / b + 1
  }

  /** Its chunks. */
  function RangeEnds(b: nat, location: nat, length: nat): seq<nat>
    requires BlockSize(b) && length >= 1
  {
    ChunkEnds(b, SectorsOf(b, location, length))
  }

  /** The bytes of the sectors that a byte range touches. */
  function Touched(f: seq<Byte>, b: nat, location: nat, length: nat): seq<Byte>
    requires BlockSize(b) && length >= 1
  {
    var from, n := b * (location / b), b * SectorsOf(b, location, length);
    if from + n <= |f| then f[from..from + n] else []
  }
}
