/**
  Transfers into physical memory: kernel/src/drv/disk/ata_dma.c and ahci.c give
  the controller the frame of a buffer's first page and a byte count, while the
  buffer comes from kmalloc_common, whose frames need not be neighbours.

  Sizes: a request covers up to 131072 bytes, which are 32 pages.
 */
module DmaMemory {
  import opened Bits
  import opened ByteRanges
  import opened PageMapping

  /** virt2phys of page p, 0 where nothing is mapped. */
  function PhysOf(pages: PageMap, p: nat): nat {
    if p in pages then 4096 * pages[p] else 0
  }

  /** The bytes that the first k of the requests for n bytes cover. */
  function Covered(k: nat, n: nat): (r: nat)
    ensures r <= n
  {
    if 131072 * k < n then 131072 * k else n
  }

  function Requests(n: nat): nat { (n + 131071) / 131072 }

  function PagesOf(n: nat): nat { (n + 4095) / 4096 }

  /**
    Physical byte x after k requests for a buffer at page v: each request
    stores its part of the data from the frame of its own first page on.
   */
  function PhysByte(pages: PageMap, v: nat, data: seq<Byte>, k: nat, x: nat, init: Byte): Byte {
    if k == 0 then init
    else
      var from, to := Covered(k - 1, |data|), Covered(k, |data|);
      var base := PhysOf(pages, v + 32 * (k - 1));
      if base <= x < base + (to - from) then data[from + (x - base)]
      else PhysByte(pages, v, data, k - 1, x, init)
  }

  /** Where byte y of the buffer lies. */
  function Spot(pages: PageMap, v: nat, y: nat): nat {
    PhysOf(pages, v + y / 4096) + y % 4096
  }

  /** Byte y of the zeroed buffer after all requests, as the driver reads it. */
  function Arrived(pages: PageMap, v: nat, data: seq<Byte>, y: nat): Byte {
    PhysByte(pages, v, data, Requests(|data|), Spot(pages, v, y), 0)
  }

  /** The first n bytes of it. */
  function ArrivedAll(pages: PageMap, v: nat, data: seq<Byte>, n: nat): (r: seq<Byte>)
    ensures |r| == n && forall y | 0 <= y < n :: r[y] == Arrived(pages, v, data, y)
  {
    seq(n, y requires 0 <= y => Arrived(pages, v, data, y))
  }

  // ------------------------------------------------------- frames in step

  /** The frame of page p is as far behind the frame of its request as the page is. */
  predicate PageInStep(pages: PageMap, v: nat, p: nat)
    requires v <= p
  {
    PhysOf(pages, p) == PhysOf(pages, v + 32 * ((p - v) / 32)) + 4096 * ((p - v) % 32)
  }

  /** So it is with every page of the buffer: within each request the frames are neighbours. */
  predicate InStep(pages: PageMap, v: nat, n: nat) {
    forall p | v <= p < v + PagesOf(n) :: PageInStep(pages, v, p)
  }

  lemma FirstPageInStep(pages: PageMap, v: nat)
    ensures PageInStep(pages, v, v)
  {
  }

  lemma RequestOf(k: nat, n: nat, y: nat)
    requires k > 0 && Covered(k - 1, n) <= y < Covered(k, n)
    ensures Covered(k - 1, n) == 131072 * (k - 1) && y / 4096 / 32 == k - 1
    ensures y - 131072 * (k - 1) == 4096 * (y / 4096 % 32) + y % 4096
  {
    var q := y / 4096;
    assert y == 4096 * q + y % 4096 && q == 32 * (q / 32) + q % 32;
    assert 32 * (k - 1) <= q < 32 * k;
  }

  /** A byte in step goes to its spot. */
  lemma InStepSpot(pages: PageMap, v: nat, n: nat, k: nat, y: nat)
    requires k > 0 && Covered(k - 1, n) <= y < Covered(k, n)
    ensures PageInStep(pages, v, v + y / 4096)
            <==> Spot(pages, v, y) == PhysOf(pages, v + 32 * (k - 1)) + (y - Covered(k - 1, n))
  {
    RequestOf(k, n, y);
  }

  /** No other byte of the buffer does. */
  lemma SpotsApart(pages: PageMap, v: nat, y: nat, z: nat)
    requires Injective(pages) && v + y / 4096 in pages && v + z / 4096 in pages
    requires Spot(pages, v, y) == Spot(pages, v, z)
    ensures y == z
  {
    var a, b := 4096 * v + y, 4096 * v + z;
    assert a / 4096 == v + y / 4096 && b / 4096 == v + z / 4096 && a % 4096 == y % 4096 && b % 4096 == z % 4096;
    if a != b { NoAlias(pages, a, b); }
  }

  lemma PageWithin(v: nat, n: nat, y: nat)
    requires y < n
    ensures v <= v + y / 4096 < v + PagesOf(n)
  {
  }

  /** With frames in step exactly the data arrives, and what follows it stays zero. */
  lemma {:induction false} InStepArrives(pages: PageMap, v: nat, data: seq<Byte>, k: nat, y: nat)
    requires Injective(pages) && MappedRange(pages, v, PagesOf(|data|)) && v + y / 4096 in pages
    requires InStep(pages, v, |data|)
    ensures PhysByte(pages, v, data, k, Spot(pages, v, y), 0) == if y < Covered(k, |data|) then data[y] else 0
    decreases k
  {
    if k > 0 {
      InStepArrives(pages, v, data, k - 1, y);
      InStepRequest(pages, v, data, k, y);
    }
  }

  lemma InStepRequest(pages: PageMap, v: nat, data: seq<Byte>, k: nat, y: nat)
    requires Injective(pages) && MappedRange(pages, v, PagesOf(|data|)) && v + y / 4096 in pages
    requires k > 0 && InStep(pages, v, |data|)
    ensures var from, to := Covered(k - 1, |data|), Covered(k, |data|);
            var base, x := PhysOf(pages, v + 32 * (k - 1)), Spot(pages, v, y);
            && (base <= x < base + (to - from) <==> from <= y < to)
            && (from <= y < to ==> x == base + (y - from))
  {
    var n := |data|;
    var from, to := Covered(k - 1, n), Covered(k, n);
    var base, x := PhysOf(pages, v + 32 * (k - 1)), Spot(pages, v, y);
    if from <= y < to {
      PageWithin(v, n, y);
      InStepSpot(pages, v, n, k, y);
    }
    if base <= x < base + (to - from) {
      var z := from + (x - base);
      PageWithin(v, n, z);
      InStepSpot(pages, v, n, k, z);
      SpotsApart(pages, v, y, z);
    }
  }

  /** A byte on a page out of step never gets there. */
  lemma {:induction false} OutOfStepLost(pages: PageMap, v: nat, data: seq<Byte>, k: nat, y: nat)
    requires y < |data| && !PageInStep(pages, v, v + y / 4096)
    requires forall z | 0 <= z < |data| && z != y :: data[z] == 0
    ensures PhysByte(pages, v, data, k, Spot(pages, v, y), 0) == 0
    decreases k
  {
    if k > 0 {
      OutOfStepLost(pages, v, data, k - 1, y);
      var from, to := Covered(k - 1, |data|), Covered(k, |data|);
      if from <= y < to { InStepSpot(pages, v, |data|, k, y); }
    }
  }

  // ------------------------------------------------------- the exact condition

  /** The bytes from off on arrive, whatever they are. */
  ghost predicate AlwaysArrives(pages: PageMap, v: nat, n: nat, off: nat, len: nat)
    requires off + len <= n
  {
    forall data: seq<Byte> | |data| == n ::
      ArrivedAll(pages, v, data, n)[off..off + len] == data[off..off + len]
  }

  lemma ArrivedInStep(pages: PageMap, v: nat, data: seq<Byte>, n: nat)
    requires Injective(pages) && MappedRange(pages, v, PagesOf(|data|)) && MappedRange(pages, v, PagesOf(n))
    requires |data| <= n && InStep(pages, v, |data|)
    ensures ArrivedAll(pages, v, data, n)[..|data|] == data
    ensures forall y | |data| <= y < n :: ArrivedAll(pages, v, data, n)[y] == 0
  {
    forall y | 0 <= y < n
      ensures Arrived(pages, v, data, y) == if y < |data| then data[y] else 0
    {
      PageWithin(v, n, y);
      InStepArrives(pages, v, data, Requests(|data|), y);
    }
  }

  /** Data of n bytes with a single one at y. */
  function Single(n: nat, y: nat): (d: seq<Byte>)
    ensures |d| == n && forall z | 0 <= z < n :: d[z] == if z == y then 1 else 0
  {
    seq(n, z => if z == y then 1 else 0)
  }

  lemma OutOfStepFails(pages: PageMap, v: nat, n: nat, y: nat)
    requires y < n && !PageInStep(pages, v, v + y / 4096)
    ensures Arrived(pages, v, Single(n, y), y) == 0 && Single(n, y)[y] == 1
  {
    OutOfStepLost(pages, v, Single(n, y), Requests(n), y);
  }

  /**
    The bytes asked for arrive, whatever the disk holds, exactly if the frames
    of the buffer are in step. The window has to reach into every page, as the
    windows of whole sectors do.
   */
  lemma DmaExactly(pages: PageMap, v: nat, n: nat, off: nat, len: nat)
    requires Injective(pages) && MappedRange(pages, v, PagesOf(n))
    requires 0 < len && off + len <= n && off < 4096 && 4096 * (PagesOf(n) - 1) < off + len
    ensures AlwaysArrives(pages, v, n, off, len) <==> InStep(pages, v, n)
  {
    if InStep(pages, v, n) {
      forall data: seq<Byte> | |data| == n
        ensures ArrivedAll(pages, v, data, n)[off..off + len] == data[off..off + len]
      {
        ArrivedInStep(pages, v, data, n);
        assert ArrivedAll(pages, v, data, n) == data;
      }
    } else {
      var p :| v <= p < v + PagesOf(n) && !PageInStep(pages, v, p);
      FirstPageInStep(pages, v);
      PageFallsShort(pages, v, n, off, len, p - v);
    }
  }

  lemma PageFallsShort(pages: PageMap, v: nat, n: nat, off: nat, len: nat, j: nat)
    requires off < 4096 <= 4096 * j < off + len <= n && !PageInStep(pages, v, v + j)
    ensures !AlwaysArrives(pages, v, n, off, len)
  {
    var y := 4096 * j;
    assert y / 4096 == j;
    OutOfStepFails(pages, v, n, y);
    var data := Single(n, y);
    assert ArrivedAll(pages, v, data, n)[off..off + len][y - off] != data[off..off + len][y - off];
  }

  /** It happens: a buffer of two pages on frames 5 and 7 loses the second page. */
  lemma ScatteredBufferFails(pages: PageMap, v: nat)
    requires v in pages && v + 1 in pages && pages[v] == 5 && pages[v + 1] == 7
    ensures !InStep(pages, v, 8192) && Arrived(pages, v, Single(8192, 4096), 4096) == 0
  {
    assert !PageInStep(pages, v, v + 1);
    OutOfStepFails(pages, v, 8192, 4096);
  }

  // ------------------------------------------------------- memory that the controller writes

  /** The controller has stored `data` at physical address a on. */
  ghost predicate Received(r: Ram, r': Ram, a: nat, data: seq<Byte>) {
    forall x: nat {:trigger r'(x)} :: r'(x) == if a <= x < a + |data| then data[x - a] else r(x)
  }

  lemma ReceivedNext(r: Ram, r1: Ram, r2: Ram, a: nat, data: seq<Byte>, k: nat, n: nat)
    requires k <= n <= |data| && Received(r, r1, a, data[..k]) && Received(r1, r2, a + k, data[k..n])
    ensures Received(r, r2, a, data[..n])
  {
    forall x: nat
      ensures r2(x) == if a <= x < a + n then data[..n][x - a] else r(x)
    {
      assert r1(x) == if a <= x < a + k then data[..k][x - a] else r(x);
    }
  }

  /** Memory after the first k requests. */
  ghost predicate AfterRequests(r: Ram, r': Ram, pages: PageMap, v: nat, data: seq<Byte>, k: nat) {
    forall x: nat {:trigger r'(x)} :: r'(x) == PhysByte(pages, v, data, k, x, r(x))
  }

  lemma NextRequest(r: Ram, r1: Ram, r2: Ram, pages: PageMap, v: nat, data: seq<Byte>, k: nat)
    requires AfterRequests(r, r1, pages, v, data, k)
    requires Received(r1, r2, PhysOf(pages, v + 32 * k), data[Covered(k, |data|)..Covered(k + 1, |data|)])
    ensures AfterRequests(r, r2, pages, v, data, k + 1)
  {
    forall x: nat
      ensures r2(x) == PhysByte(pages, v, data, k + 1, x, r(x))
    {
      assert r1(x) == PhysByte(pages, v, data, k, x, r(x));
    }
  }

  /** Byte y of the buffer at page v. */
  function ByteAt(pages: PageMap, ram: Ram, v: nat, y: nat): Byte { Load(pages, ram, 4096 * v + y) }

  /** Reading the zeroed buffer after all requests. */
  lemma SeenIsArrived(r: Ram, r': Ram, pages: PageMap, v: nat, data: seq<Byte>, y: nat)
    requires AfterRequests(r, r', pages, v, data, Requests(|data|)) && v + y / 4096 in pages
    requires ByteAt(pages, r, v, y) == 0
    ensures ByteAt(pages, r', v, y) == Arrived(pages, v, data, y)
  {
    var a := 4096 * v + y;
    assert a / 4096 == v + y / 4096 && a % 4096 == y % 4096;
    assert r'(Spot(pages, v, y)) == PhysByte(pages, v, data, Requests(|data|), Spot(pages, v, y), r(Spot(pages, v, y)));
  }
}
