/**
  The physical page allocator of kernel/src/mem/pmm.c: a bitmap with one bit
  per 4096-byte page, and a byte counter of the memory in use.

  Page p is bit p % 8 of byte p / 8, and its address is 4096 * p, PAGE_SIZE being 4096.
 */
module PhysicalMemory {
  import opened Bits

  // ------------------------------------------------------- the bitmap as a value

  predicate PageUsed(bm: seq<Byte>, p: nat)
    requires p < 8 * |bm|
  {
    Bit(bm[p / 8], p % 8)
  }

  predicate PageFree(bm: seq<Byte>, p: nat) {
    p < 8 * |bm| && !PageUsed(bm, p)
  }

  function SetPage(bm: seq<Byte>, p: nat): (r: seq<Byte>)
    requires p < 8 * |bm|
    ensures |r| == |bm|
  {
    ByteAfterSet(bm[p / 8], p % 8);
    bm[p / 8 := Or(bm[p / 8], Pow2(p % 8))]
  }

  function ClearPage(bm: seq<Byte>, p: nat): (r: seq<Byte>)
    requires p < 8 * |bm|
    ensures |r| == |bm|
  {
    ByteAfterClear(bm[p / 8], p % 8);
    bm[p / 8 := And(bm[p / 8], 255 - Pow2(p % 8))]
  }

  lemma ByteAfterSet(b: Byte, j: nat)
    requires j < 8
    ensures Or(b, Pow2(j)) < 256
  {
    Pow2OfWord();
    Pow2Monotone(j, 8);
    OrBelow(8, b, Pow2(j));
  }

  lemma ByteAfterClear(b: Byte, j: nat)
    requires j < 8
    ensures Pow2(j) <= 128 && And(b, 255 - Pow2(j)) < 256
  {
    Pow2OfWord();
    Pow2Monotone(j, 8);
    AndAtMost(b, 255 - Pow2(j));
  }

  /** Setting a page changes that page and no other. */
  lemma SetPageView(bm: seq<Byte>, p: nat, q: nat)
    requires p < 8 * |bm| && q < 8 * |bm|
    ensures PageUsed(SetPage(bm, p), q) <==> q == p || PageUsed(bm, q)
  {
    if q / 8 == p / 8 {
      BitOr(bm[p / 8], Pow2(p % 8), q % 8);
      BitOfPow2(p % 8, q % 8);
    }
  }

  /** Clearing a page changes that page and no other. */
  lemma ClearPageView(bm: seq<Byte>, p: nat, q: nat)
    requires p < 8 * |bm| && q < 8 * |bm|
    ensures PageUsed(ClearPage(bm, p), q) <==> q != p && PageUsed(bm, q)
  {
    if q / 8 == p / 8 {
      BitAfterClear(bm[p / 8], p % 8, q % 8);
    }
  }

  lemma BitAfterClear(b: Byte, j: nat, k: nat)
    requires j < 8 && k < 8
    ensures Pow2(j) <= 128 && (Bit(And(b, 255 - Pow2(j)), k) <==> k != j && Bit(b, k))
  {
    ByteAfterClear(b, j);
    Pow2OfWord();
    BitAnd(b, 255 - Pow2(j), k);
    BitComplement(8, Pow2(j), k);
    BitOfPow2(j, k);
  }

  /** The byte test `== 0xff` means that all eight pages are used. */
  lemma FullByte(b: Byte, j: nat)
    requires b == 255 && j < 8
    ensures Bit(b, j)
  {
    Pow2OfWord();
    ZeroHasNoBits(j);
    BitComplement(8, 0, j);
  }

  lemma PageOfByte(bm: seq<Byte>, i: nat, j: nat)
    requires i < |bm| && j < 8
    ensures (8 * i + j) / 8 == i && (8 * i + j) % 8 == j
    ensures PageUsed(bm, 8 * i + j) == Bit(bm[i], j)
  {
  }

  /** Byte and bit of an address, as the code computes them. */
  lemma PageOfAddress(addr: nat)
    ensures (addr / 4096) / 8 == addr / (4096 * 8)
    ensures (addr / 4096) % 8 == (addr % (4096 * 8)) / 4096
  {
  }

  lemma FullByteView(bm: seq<Byte>, i: nat)
    requires i < |bm|
    ensures bm[i] == 255 <==> forall p | 8 * i <= p < 8 * i + 8 :: PageUsed(bm, p)
  {
    if bm[i] == 255 {
      forall p | 8 * i <= p < 8 * i + 8
        ensures PageUsed(bm, p)
      {
        assert p / 8 == i;
        FullByte(bm[i], p % 8);
      }
    }
    if forall p | 8 * i <= p < 8 * i + 8 :: PageUsed(bm, p) {
      Pow2OfWord();
      forall j | 0 <= j < 8
        ensures Bit(bm[i], j) == Bit(255, j)
      {
        assert PageUsed(bm, 8 * i + j);
        FullByte(255, j);
      }
      BitsDetermine(8, bm[i], 255);
    }
  }

  /** A bitmap is determined by which pages it calls used. */
  lemma PagesDetermine(a: seq<Byte>, b: seq<Byte>)
    requires |a| == |b|
    requires forall p | 0 <= p < 8 * |a| :: PageUsed(a, p) == PageUsed(b, p)
    ensures a == b
  {
    Pow2OfWord();
    forall i | 0 <= i < |a|
      ensures a[i] == b[i]
    {
      forall j | 0 <= j < 8
        ensures Bit(a[i], j) == Bit(b[i], j)
      {
        assert PageUsed(a, 8 * i + j) == PageUsed(b, 8 * i + j);
      }
      BitsDetermine(8, a[i], b[i]);
    }
  }

  // ------------------------------------------------------- counting used pages

  function CountUsed(bm: seq<Byte>, n: nat): (c: nat)
    requires n <= 8 * |bm|
    ensures c <= n
  {
    if n == 0 then 0
    else CountUsed(bm, n - 1) + (if PageUsed(bm, n - 1) then 1 else 0)
  }

  function TotalUsed(bm: seq<Byte>): nat {
    CountUsed(bm, 8 * |bm|)
  }

  lemma {:induction false} CountAfterSet(bm: seq<Byte>, p: nat, n: nat)
    requires p < 8 * |bm| && n <= 8 * |bm| && !PageUsed(bm, p)
    ensures CountUsed(SetPage(bm, p), n) == CountUsed(bm, n) + (if p < n then 1 else 0)
    decreases n
  {
    if n > 0 {
      CountAfterSet(bm, p, n - 1);
      SetPageView(bm, p, n - 1);
    }
  }

  lemma {:induction false} CountAfterClear(bm: seq<Byte>, p: nat, n: nat)
    requires p < 8 * |bm| && n <= 8 * |bm| && PageUsed(bm, p)
    ensures CountUsed(ClearPage(bm, p), n) == CountUsed(bm, n) - (if p < n then 1 else 0)
    decreases n
  {
    if n > 0 {
      CountAfterClear(bm, p, n - 1);
      ClearPageView(bm, p, n - 1);
    }
  }

  lemma {:induction false} CountOfPrefix(bm: seq<Byte>, p: nat, n: nat)
    requires p <= n <= 8 * |bm|
    requires forall q | 0 <= q < p :: PageUsed(bm, q)
    ensures p <= CountUsed(bm, n)
    decreases n
  {
    if n > 0 {
      if p < n { CountOfPrefix(bm, p, n - 1); } else { CountOfPrefix(bm, p - 1, n - 1); }
    }
  }

  /** The lowest free page, or the page count when there is none. */
  function FirstFree(bm: seq<Byte>, from: nat): (p: nat)
    requires from <= 8 * |bm|
    ensures from <= p <= 8 * |bm|
    ensures forall q | from <= q < p :: PageUsed(bm, q)
    ensures p < 8 * |bm| ==> !PageUsed(bm, p)
    decreases 8 * |bm| - from
  {
    if from == 8 * |bm| || !PageUsed(bm, from) then from else FirstFree(bm, from + 1)
  }

  /**
    Pigeonhole: when fewer than n pages are used, the lowest free page lies
    below n, so it is inside physical memory and not past its end.
   */
  lemma FirstFreeBelow(bm: seq<Byte>, n: nat)
    requires TotalUsed(bm) < n <= 8 * |bm|
    ensures FirstFree(bm, 0) < n
  {
    CountOfPrefix(bm, FirstFree(bm, 0), 8 * |bm|);
  }

  function FreeLeft(bm: seq<Byte>): nat {
    8 * |bm| - TotalUsed(bm)
  }

  /** A search finds no free page exactly when none is left. */
  lemma NoneLeft(bm: seq<Byte>)
    ensures FirstFree(bm, 0) == 8 * |bm| <==> FreeLeft(bm) == 0
  {
    var n := 8 * |bm|;
    CountOfPrefix(bm, FirstFree(bm, 0), n);
    if FirstFree(bm, 0) < n { CountMissesFree(bm, FirstFree(bm, 0), n); }
  }

  // ------------------------------------------------------- runs of pages

  function MarkRun(bm: seq<Byte>, start: nat, n: nat): (r: seq<Byte>)
    requires start + n <= 8 * |bm|
    ensures |r| == |bm|
  {
    if n == 0 then bm else SetPage(MarkRun(bm, start, n - 1), start + n - 1)
  }

  function ClearRun(bm: seq<Byte>, start: nat, n: nat): (r: seq<Byte>)
    requires start + n <= 8 * |bm|
    ensures |r| == |bm|
  {
    if n == 0 then bm else ClearPage(ClearRun(bm, start, n - 1), start + n - 1)
  }

  lemma ClearRunStep(bm: seq<Byte>, start: nat, n: nat)
    requires start + n < 8 * |bm|
    ensures ClearRun(bm, start, n + 1) == ClearPage(ClearRun(bm, start, n), start + n)
  {
  }

  lemma {:induction false} MarkRunView(bm: seq<Byte>, start: nat, n: nat, q: nat)
    requires start + n <= 8 * |bm| && q < 8 * |bm|
    ensures PageUsed(MarkRun(bm, start, n), q) <==> start <= q < start + n || PageUsed(bm, q)
    decreases n
  {
    if n > 0 {
      MarkRunView(bm, start, n - 1, q);
      SetPageView(MarkRun(bm, start, n - 1), start + n - 1, q);
    }
  }

  lemma {:induction false} ClearRunView(bm: seq<Byte>, start: nat, n: nat, q: nat)
    requires start + n <= 8 * |bm| && q < 8 * |bm|
    ensures PageUsed(ClearRun(bm, start, n), q) <==> !(start <= q < start + n) && PageUsed(bm, q)
    decreases n
  {
    if n > 0 {
      ClearRunView(bm, start, n - 1, q);
      ClearPageView(ClearRun(bm, start, n - 1), start + n - 1, q);
    }
  }

  /** How many of the count pages from p on lie past a bitmap of n pages. */
  function Overrun(n: nat, p: nat, count: nat): nat {
    if p + count <= n then 0 else if p < n then p + count - n else count
  }

  /** Clears the part of a run that lies inside the bitmap. */
  function ClearClipped(bm: seq<Byte>, p: nat, count: nat): seq<Byte> {
    var clipped := Inside(8 * |bm|, p, count);
    if clipped == 0 then bm else ClearRun(bm, p, clipped)
  }

  /** How many of them lie inside. */
  function Inside(n: nat, p: nat, count: nat): (r: nat)
    ensures r > 0 ==> p + r <= n
  {
    count - Overrun(n, p, count)
  }

  /** A run that may leave the bitmap clears exactly its pages in the bitmap. */
  lemma ClearClippedView(bm: seq<Byte>, p: nat, count: nat, q: nat)
    requires q < 8 * |bm|
    ensures PageUsed(ClearClipped(bm, p, count), q) <==> !(p <= q < p + count) && PageUsed(bm, q)
  {
    var clipped := Inside(8 * |bm|, p, count);
    if clipped > 0 { ClearRunView(bm, p, clipped, q); }
  }

  /** The pages phys_free_multi_pages counts down: `!--count` takes a count of 0 for 2^32. */
  function Rounds(count: nat): nat {
    if count == 0 then 0x1_0000_0000 else count
  }

  /** What it takes off the byte counter, which is a 32-bit word: nothing, unless it runs off the bitmap. */
  function CounterDrop(n: nat, p: nat, count: nat): int {
    var over := Overrun(n, p, Rounds(count));
    if over == 0 then 0 else 4096 * (if count == 0 then over - 0x1_0000_0000 else over)
  }

  predicate AllFree(bm: seq<Byte>, start: nat, n: nat) {
    start + n <= 8 * |bm| && forall q | start <= q < start + n :: !PageUsed(bm, q)
  }

  lemma UsedPageIsNotFree(bm: seq<Byte>, start: nat, n: nat, p: nat)
    requires start <= p < start + n && p < 8 * |bm| && PageUsed(bm, p)
    ensures !AllFree(bm, start, n)
  {
  }

  /** Freeing a run undoes marking it exactly when the run was free before. */
  lemma FreeUndoesMark(bm: seq<Byte>, start: nat, n: nat)
    requires start + n <= 8 * |bm|
    ensures ClearRun(MarkRun(bm, start, n), start, n) == bm <==> AllFree(bm, start, n)
  {
    var m := MarkRun(bm, start, n);
    var c := ClearRun(m, start, n);
    forall q | 0 <= q < 8 * |bm|
      ensures PageUsed(c, q) <==> !(start <= q < start + n) && PageUsed(bm, q)
    {
      MarkRunView(bm, start, n, q);
      ClearRunView(m, start, n, q);
    }
    if AllFree(bm, start, n) { PagesDetermine(c, bm); }
  }

  lemma {:induction false} CountAfterMark(bm: seq<Byte>, start: nat, n: nat)
    requires AllFree(bm, start, n)
    ensures TotalUsed(MarkRun(bm, start, n)) == TotalUsed(bm) + n
    decreases n
  {
    if n > 0 {
      CountAfterMark(bm, start, n - 1);
      MarkRunView(bm, start, n - 1, start + n - 1);
      CountAfterSet(MarkRun(bm, start, n - 1), start + n - 1, 8 * |bm|);
    }
  }

  /** How many of the n pages from p on are in use. */
  function UsedIn(bm: seq<Byte>, p: nat, n: nat): (c: nat)
    requires p + n <= 8 * |bm|
    ensures c <= n
  {
    if n == 0 then 0 else UsedIn(bm, p, n - 1) + (if PageUsed(bm, p + n - 1) then 1 else 0)
  }

  lemma {:induction false} UsedInNone(bm: seq<Byte>, p: nat, n: nat)
    requires p + n <= 8 * |bm|
    ensures UsedIn(bm, p, n) == 0 <==> AllFree(bm, p, n)
    decreases n
  {
    if n > 0 { UsedInNone(bm, p, n - 1); }
  }

  lemma ClearOne(bm: seq<Byte>, p: nat)
    requires p < 8 * |bm|
    ensures TotalUsed(ClearPage(bm, p)) == TotalUsed(bm) - (if PageUsed(bm, p) then 1 else 0)
  {
    if PageUsed(bm, p) {
      CountAfterClear(bm, p, 8 * |bm|);
    } else {
      forall q | 0 <= q < 8 * |bm| { ClearPageView(bm, p, q); }
      PagesDetermine(ClearPage(bm, p), bm);
    }
  }

  lemma {:induction false} CountAfterClearRun(bm: seq<Byte>, p: nat, n: nat)
    requires p + n <= 8 * |bm|
    ensures TotalUsed(ClearRun(bm, p, n)) == TotalUsed(bm) - UsedIn(bm, p, n)
    decreases n
  {
    if n > 0 {
      CountAfterClearRun(bm, p, n - 1);
      ClearRunView(bm, p, n - 1, p + n - 1);
      ClearOne(ClearRun(bm, p, n - 1), p + n - 1);
    }
  }

  // ------------------------------------------------------- the multi-page search

  /**
    The scan of phys_alloc_multi_pages skips bytes equal to 0xff without
    touching its counter. RunLength is that counter after the pages below q,
    and RunStart the page where it last started.
   */
  predicate Skipped(bm: seq<Byte>, p: nat)
    requires p < 8 * |bm|
  {
    bm[p / 8] == 255
  }

  function RunLength(bm: seq<Byte>, q: nat): (c: nat)
    requires q <= 8 * |bm|
    ensures c <= q
  {
    if q == 0 then 0
    else if Skipped(bm, q - 1) then RunLength(bm, q - 1)
    else if PageUsed(bm, q - 1) then 0
    else RunLength(bm, q - 1) + 1
  }

  function RunStart(bm: seq<Byte>, q: nat): (s: nat)
    requires q <= 8 * |bm| && RunLength(bm, q) > 0
    ensures s + RunLength(bm, q) <= q
    ensures !PageUsed(bm, s)
  {
    if Skipped(bm, q - 1) then RunStart(bm, q - 1)
    else if RunLength(bm, q - 1) == 0 then q - 1
    else RunStart(bm, q - 1)
  }

  /** The scan succeeds at page q: a further free page after `count` of them. */
  predicate Hit(bm: seq<Byte>, count: nat, q: nat) {
    && q < 8 * |bm|
    && !Skipped(bm, q) && !PageUsed(bm, q)
    && count > 0 && RunLength(bm, q) == count
  }

  predicate NoHitBefore(bm: seq<Byte>, count: nat, q: nat) {
    forall p | 0 <= p < q :: !Hit(bm, count, p)
  }

  lemma SkippedIsUsed(bm: seq<Byte>, p: nat)
    requires p < 8 * |bm| && Skipped(bm, p)
    ensures PageUsed(bm, p)
  {
    FullByteView(bm, p / 8);
  }

  /** Every page from the start of the run on is free unless it was skipped. */
  lemma {:induction false} RunIsFreeOrSkipped(bm: seq<Byte>, q: nat, p: nat)
    requires q <= 8 * |bm| && RunLength(bm, q) > 0
    requires RunStart(bm, q) <= p < q
    ensures !PageUsed(bm, p) || Skipped(bm, p)
    decreases q
  {
    if p < q - 1 { RunIsFreeOrSkipped(bm, q - 1, p); }
  }

  /** A contiguous stretch of free pages makes the counter at least as long. */
  lemma {:induction false} FreeStretchCounts(bm: seq<Byte>, a: nat, q: nat)
    requires a <= q <= 8 * |bm|
    requires forall p | a <= p < q :: !PageUsed(bm, p)
    ensures RunLength(bm, q) >= q - a
    decreases q
  {
    if a < q {
      if Skipped(bm, q - 1) { SkippedIsUsed(bm, q - 1); }
      FreeStretchCounts(bm, a, q - 1);
    }
  }

  /** The counter cannot get past `count` without the scan succeeding. */
  lemma {:induction false} CounterStopsAtCount(bm: seq<Byte>, count: nat, q: nat)
    requires q <= 8 * |bm| && count > 0
    requires NoHitBefore(bm, count, q)
    ensures RunLength(bm, q) <= count
    decreases q
  {
    if q > 0 {
      assert !Hit(bm, count, q - 1);
      CounterStopsAtCount(bm, count, q - 1);
    }
  }

  /** A failed search proves that no count + 1 consecutive pages are free. */
  lemma NoHitMeansNoRun(bm: seq<Byte>, count: nat, a: nat)
    requires count > 0 && NoHitBefore(bm, count, 8 * |bm|)
    ensures !AllFree(bm, a, count + 1)
  {
    if AllFree(bm, a, count + 1) {
      FreeStretchCounts(bm, a, a + count + 1);
      CounterStopsAtCount(bm, count, a + count + 1);
    }
  }

  /**
    What a successful search guarantees about the run it picked: the count
    pages were all free exactly when no 0xff byte lies inside the run, and one
    more free page follows exactly when no 0xff byte follows it either.
   */
  lemma HitRun(bm: seq<Byte>, count: nat, q: nat)
    requires Hit(bm, count, q)
    ensures var s := RunStart(bm, q);
            && s + count <= q
            && (AllFree(bm, s, count) <==> forall p | s <= p < s + count :: !Skipped(bm, p))
            && (AllFree(bm, s, count + 1) <==> forall p | s <= p < s + count + 1 :: !Skipped(bm, p))
  {
    var s := RunStart(bm, q);
    forall p | s <= p < q
      ensures !PageUsed(bm, p) <==> !Skipped(bm, p)
    {
      RunIsFreeOrSkipped(bm, q, p);
      if Skipped(bm, p) { SkippedIsUsed(bm, p); }
    }
  }

  /** Where the scan first succeeds, or the page count when it never does. */
  function FirstHit(bm: seq<Byte>, count: nat, from: nat): (q: nat)
    requires from <= 8 * |bm|
    ensures from <= q <= 8 * |bm|
    ensures q < 8 * |bm| ==> Hit(bm, count, q)
    decreases 8 * |bm| - from
  {
    if from == 8 * |bm| || Hit(bm, count, from) then from else FirstHit(bm, count, from + 1)
  }

  lemma {:induction false} FirstHitIsFirst(bm: seq<Byte>, count: nat, from: nat, p: nat)
    requires from <= p < 8 * |bm| && p < FirstHit(bm, count, from)
    ensures !Hit(bm, count, p)
    decreases 8 * |bm| - from
  {
    if from < p { FirstHitIsFirst(bm, count, from + 1, p); }
  }

  /** A failed search proves that no count + 1 consecutive pages are free. */
  lemma FailedSearch(bm: seq<Byte>, count: nat, a: nat)
    requires count > 0 && FirstHit(bm, count, 0) == 8 * |bm|
    ensures !AllFree(bm, a, count + 1)
  {
    forall p | 0 <= p < 8 * |bm|
      ensures !Hit(bm, count, p)
    {
      FirstHitIsFirst(bm, count, 0, p);
    }
    NoHitMeansNoRun(bm, count, a);
  }

  /** The variables of the search after the pages below q. */
  ghost predicate ScanState(bm: seq<Byte>, count: nat, q: nat, counter: nat, start: nat) {
    && q <= 8 * |bm|
    && counter == RunLength(bm, q)
    && FirstHit(bm, count, 0) == FirstHit(bm, count, q)
    && (counter > 0 ==> RunStart(bm, q) == start)
  }

  lemma ScanHit(bm: seq<Byte>, count: nat, q: nat, counter: nat, start: nat)
    requires q < 8 * |bm| && ScanState(bm, count, q, counter, start)
    requires !Skipped(bm, q) && !PageUsed(bm, q) && counter > 0 && counter == count
    ensures FirstHit(bm, count, 0) == q && RunStart(bm, q) == start
  {
  }

  lemma ScanUsed(bm: seq<Byte>, count: nat, q: nat, counter: nat, start: nat)
    requires q < 8 * |bm| && ScanState(bm, count, q, counter, start)
    requires !Skipped(bm, q) && PageUsed(bm, q)
    ensures ScanState(bm, count, q + 1, 0, start)
  {
  }

  lemma ScanFree(bm: seq<Byte>, count: nat, q: nat, counter: nat, start: nat)
    requires q < 8 * |bm| && ScanState(bm, count, q, counter, start)
    requires !Skipped(bm, q) && !PageUsed(bm, q)
    requires counter != count || counter == 0
    ensures ScanState(bm, count, q + 1, counter + 1, if counter == 0 then q else start)
  {
  }

  lemma {:induction false} ScanSkipped(bm: seq<Byte>, count: nat, i: nat, counter: nat, start: nat, j: nat)
    requires i < |bm| && bm[i] == 255 && j <= 8
    requires ScanState(bm, count, 8 * i, counter, start)
    ensures ScanState(bm, count, 8 * i + j, counter, start)
    decreases j
  {
    if j > 0 {
      ScanSkipped(bm, count, i, counter, start, j - 1);
      assert (8 * i + j - 1) / 8 == i;
    }
  }

  /**
    A full byte inside the run makes the allocator hand out a page that is in
    use: with pages 0-6 and 8-15 taken, on a bitmap of any length, asking for
    two pages yields 7 and 8.
   */
  lemma SkippedByteGivesUsedPage(bm: seq<Byte>)
    requires |bm| >= 3 && bm[0] == 127 && bm[1] == 255 && bm[2] == 0
    ensures Hit(bm, 2, 17) && RunStart(bm, 17) == 7
    ensures PageUsed(bm, 8) && !AllFree(bm, 7, 2)
  {
    assert Bit(127, 6) && !Bit(127, 7) && !Bit(0, 0) && !Bit(0, 1) && Bit(255, 0) by {
      assert Bit(127, 6) by { assert Bit(31, 4); assert Bit(7, 2); }
      assert !Bit(127, 7) by { assert !Bit(31, 5); assert !Bit(7, 3); assert !Bit(1, 1); }
    }
    assert RunLength(bm, 7) == 0;
    assert RunLength(bm, 8) == 1 && RunStart(bm, 8) == 7;
    RunOverSkipped(bm, 1, 8);
    assert RunLength(bm, 17) == 2 && RunStart(bm, 17) == 7;
    SkippedIsUsed(bm, 8);
    UsedPageIsNotFree(bm, 7, 2, 8);
  }

  /** A full byte right behind the run: the run is free, one more page is not. */
  lemma SkippedByteEndsRun(bm: seq<Byte>)
    requires |bm| >= 3 && bm[0] == 0 && bm[1] == 255 && bm[2] == 0
    ensures Hit(bm, 8, 16) && RunStart(bm, 16) == 0
    ensures AllFree(bm, 0, 8) && !AllFree(bm, 0, 9)
  {
    forall q | 0 <= q < 8
      ensures !PageUsed(bm, q)
    {
      ZeroHasNoBits(q);
    }
    ZeroHasNoBits(0);
    FreeStretchCounts(bm, 0, 8);
    RunOverSkipped(bm, 1, 8);
    assert RunLength(bm, 16) == 8;
    SkippedIsUsed(bm, 8);
  }

  lemma {:induction false} RunOverSkipped(bm: seq<Byte>, i: nat, j: nat)
    requires i < |bm| && bm[i] == 255 && j <= 8
    ensures RunLength(bm, 8 * i + j) == RunLength(bm, 8 * i)
    ensures RunLength(bm, 8 * i) > 0 ==> RunStart(bm, 8 * i + j) == RunStart(bm, 8 * i)
    decreases j
  {
    if j > 0 {
      RunOverSkipped(bm, i, j - 1);
      assert (8 * i + j - 1) / 8 == i;
    }
  }

  // ------------------------------------------------------- accounting over runs

  /**
    The byte counter accounts for every used page except `reserved` bytes: the
    pages that phys_mark_page_entry marked without touching the counter.
   */
  predicate Accounted(bm: seq<Byte>, used: int, reserved: int) {
    used + reserved == 4096 * TotalUsed(bm)
  }

  /** Page 0 is taken and the bitmap reaches the end of memory. */
  predicate Covers(bm: seq<Byte>, size: nat) {
    size <= 4096 * (8 * |bm|) && |bm| > 0 && PageUsed(bm, 0)
  }

  /**
    phys_free_multi_pages keeps the account exactly if what it takes off the
    counter is what the cleared pages in use amount to.
   */
  lemma FreeMultiAccount(bm: seq<Byte>, used: int, reserved: int, p: nat, count: nat)
    requires Accounted(bm, used, reserved)
    ensures var n := 8 * |bm|;
            var inside := Inside(n, p, Rounds(count));
            Accounted(ClearClipped(bm, p, Rounds(count)), used - CounterDrop(n, p, count), reserved)
            <==> CounterDrop(n, p, count) == 4096 * (if inside == 0 then 0 else UsedIn(bm, p, inside))
  {
    var inside := Inside(8 * |bm|, p, Rounds(count));
    if inside > 0 { CountAfterClearRun(bm, p, inside); }
  }

  /** For a run inside the bitmap: exactly if none of its pages was in use, so that there was nothing to free. */
  lemma FreeInsideAccount(bm: seq<Byte>, used: int, reserved: int, p: nat, count: nat)
    requires Accounted(bm, used, reserved) && count > 0 && p + count <= 8 * |bm|
    ensures Accounted(ClearClipped(bm, p, count), used - CounterDrop(8 * |bm|, p, count), reserved)
            <==> AllFree(bm, p, count)
  {
    FreeMultiAccount(bm, used, reserved, p, count);
    UsedInNone(bm, p, count);
  }

  /** It happens: freeing page 1 alone on any bitmap that starts with just pages 0 and 1 in use. */
  lemma FreeMultiDrifts(bm: seq<Byte>, used: int, reserved: int)
    requires |bm| > 0 && bm[0] == 3 && Accounted(bm, used, reserved)
    ensures CounterDrop(8 * |bm|, 1, 1) == 0
    ensures !Accounted(ClearClipped(bm, 1, 1), used, reserved)
  {
    assert Bit(3, 1) by { assert Bit(1, 0); }
    assert PageUsed(bm, 1);
    FreeInsideAccount(bm, used, reserved, 1, 1);
  }

  /** The next search for count pages finds a run that is free and not at address 0. */
  ghost predicate FreeRunAhead(bm: seq<Byte>, count: nat) {
    var h := FirstHit(bm, count, 0);
    h < 8 * |bm| && RunStart(bm, h) > 0 && AllFree(bm, RunStart(bm, h), count)
  }

  lemma RoundRestores(bm: seq<Byte>, count: nat, addr: nat)
    requires FreeRunAhead(bm, count) && addr == 4096 * RunStart(bm, FirstHit(bm, count, 0))
    ensures addr != 0 && addr / 4096 + count <= 8 * |bm| && Rounds(count) == count
    ensures ClearClipped(MarkRun(bm, addr / 4096, count), addr / 4096, count) == bm
    ensures CounterDrop(8 * |bm|, addr / 4096, count) == 0
  {
    var s := addr / 4096;
    FreeUndoesMark(bm, s, count);
    assert Inside(8 * |bm|, s, count) == count;
  }

  lemma NextMultiple(n: nat, k: nat, c: nat)
    requires n < k
    ensures (n + 1) * c == n * c + c && (n + 1) * c <= k * c
  {
    var m := k - (n + 1);
    assert k * c == (n + 1) * c + m * c;
  }

  /** One page at a time on any bitmap of which only page 0 is taken in its front. */
  lemma PageOneAhead(bm: seq<Byte>)
    requires |bm| > 0 && bm[0] == 1
    ensures FreeRunAhead(bm, 1)
  {
    assert Bit(1, 0) && !Bit(1, 1) && !Bit(1, 2) by { ZeroHasNoBits(0); ZeroHasNoBits(1); }
    assert RunLength(bm, 1) == 0 && RunLength(bm, 2) == 1 && RunStart(bm, 2) == 1;
    assert FirstHit(bm, 1, 0) == FirstHit(bm, 1, 1) == FirstHit(bm, 1, 2) == 2;
  }

  /** It happens: with 1 MiB and page 0 taken, round 255 never ends although 255 pages are free. */
  lemma ExhaustsWithPagesFree(bm: seq<Byte>, used: int, size: nat)
    requires |bm| == 32 && bm[0] == 1 && forall i | 1 <= i < 32 :: bm[i] == 0
    requires used == 4096 && size == 1048576
    ensures FreeRunAhead(bm, 1) && Accounted(bm, used, 0) && FreeLeft(bm) == 255
    ensures used + 254 * 4096 < size <= used + 255 * 4096
  {
    PageOneAhead(bm);
    var c := ClearPage(bm, 0);
    ZeroHasNoBits(0);
    assert PageUsed(bm, 0);
    ClearOne(bm, 0);
    forall q | 0 <= q < 256
      ensures !PageUsed(c, q)
    {
      ClearPageView(bm, 0, q);
      if 0 < q < 8 { OneHasOneBit(q); } else { ZeroHasNoBits(q % 8); }
    }
    NothingUsed(c, 256);
  }

  lemma OneHasOneBit(k: nat)
    requires k > 0
    ensures !Bit(1, k)
  {
    ZeroHasNoBits(k - 1);
  }

  datatype PageOp = TakePage | GivePage(page: nat)
  datatype Pages = Pages(bm: seq<Byte>, used: int)

  /** phys_alloc_single_page and phys_free_single_page on values. */
  function Apply(st: Pages, size: nat, op: PageOp): Pages {
    match op
    case TakePage =>
      var p := FirstFree(st.bm, 0);
      if st.used >= size || p == 8 * |st.bm| then st
      else Pages(SetPage(st.bm, p), st.used + 4096)
    case GivePage(p) =>
      if p == 0 || p >= 8 * |st.bm| then st
      else Pages(ClearPage(st.bm, p), st.used - 4096)
  }

  /** Only pages in use are given back; page 0 is ignored by the code. */
  predicate Legal(st: Pages, op: PageOp) {
    op.GivePage? ==> op.page == 0 || (op.page < 8 * |st.bm| && PageUsed(st.bm, op.page))
  }

  function Run(st: Pages, size: nat, ops: seq<PageOp>): Pages
    decreases |ops|
  {
    if ops == [] then st else Run(Apply(st, size, ops[0]), size, ops[1..])
  }

  predicate LegalRun(st: Pages, size: nat, ops: seq<PageOp>)
    decreases |ops|
  {
    ops == [] || (Legal(st, ops[0]) && LegalRun(Apply(st, size, ops[0]), size, ops[1..]))
  }

  lemma ApplyKeepsAccount(st: Pages, size: nat, op: PageOp, reserved: int)
    requires Accounted(st.bm, st.used, reserved) && Covers(st.bm, size) && Legal(st, op)
    ensures var t := Apply(st, size, op);
            |t.bm| == |st.bm| && Accounted(t.bm, t.used, reserved) && Covers(t.bm, size)
  {
    var n := 8 * |st.bm|;
    match op
    case TakePage =>
      var p := FirstFree(st.bm, 0);
      if p < n {
        CountAfterSet(st.bm, p, n);
        SetPageView(st.bm, p, 0);
      }
    case GivePage(p) =>
      if 0 < p < n {
        CountAfterClear(st.bm, p, n);
        ClearPageView(st.bm, p, 0);
      }
  }

  /** Conservation over every run of allocations and frees of held pages. */
  lemma {:induction false} RunKeepsAccount(st: Pages, size: nat, ops: seq<PageOp>, reserved: int)
    requires Accounted(st.bm, st.used, reserved) && Covers(st.bm, size)
    requires LegalRun(st, size, ops)
    ensures var t := Run(st, size, ops);
            |t.bm| == |st.bm| && Accounted(t.bm, t.used, reserved) && Covers(t.bm, size)
    decreases |ops|
  {
    if ops != [] {
      ApplyKeepsAccount(st, size, ops[0], reserved);
      RunKeepsAccount(Apply(st, size, ops[0]), size, ops[1..], reserved);
    }
  }

  /**
    Below the limit, counting alone yields a free page that is neither page 0
    nor past the end of memory.
   */
  lemma AllocationSucceeds(bm: seq<Byte>, used: int, size: nat)
    requires Accounted(bm, used, 0) && Covers(bm, size) && used < size
    ensures var p := FirstFree(bm, 0);
            0 < p < 8 * |bm| && PageFree(bm, p) && 4096 * p < size
  {
    CountOfPrefix(bm, FirstFree(bm, 0), 8 * |bm|);
  }

  /**
    With `reserved` bytes marked behind the counter's back, an allocation
    below the limit fails exactly when every page is taken, and then it is
    the reserved pages that made the difference.
   */
  lemma AllocationFailsWhen(bm: seq<Byte>, used: int, size: nat, reserved: int)
    requires Accounted(bm, used, reserved) && Covers(bm, size) && used < size
    ensures FirstFree(bm, 0) == 8 * |bm| <==> used + reserved == 4096 * (8 * |bm|)
    ensures FirstFree(bm, 0) == 8 * |bm| ==> reserved > 0
  {
    var n := 8 * |bm|;
    CountOfPrefix(bm, FirstFree(bm, 0), n);
    if FirstFree(bm, 0) < n { CountMissesFree(bm, FirstFree(bm, 0), n); }
  }

  lemma {:induction false} CountMissesFree(bm: seq<Byte>, p: nat, n: nat)
    requires p < n <= 8 * |bm| && !PageUsed(bm, p)
    ensures CountUsed(bm, n) < n
    decreases n
  {
    if p < n - 1 { CountMissesFree(bm, p, n - 1); }
  }

  // ------------------------------------------------------- marking behind the counter's back

  /** phys_mark_page_entry on a free page reserves it: the counter no longer accounts for it. */
  lemma MarkReserves(bm: seq<Byte>, used: int, reserved: int, p: nat)
    requires Accounted(bm, used, reserved) && p < 8 * |bm|
    ensures Accounted(SetPage(bm, p), used, reserved + if PageUsed(bm, p) then 0 else 4096)
  {
    if PageUsed(bm, p) {
      forall q | 0 <= q < 8 * |bm| { SetPageView(bm, p, q); }
      PagesDetermine(SetPage(bm, p), bm);
    } else {
      CountAfterSet(bm, p, 8 * |bm|);
    }
  }

  /** An entry of the memory map; every kind but 1 is reserved. */
  datatype MapEntry = MapEntry(address: nat, length: nat, kind: nat) {
    /** The entry is reserved and starts within the bitmap's reach of `total` pages. */
    predicate Marks(total: nat) { kind != 1 && address < 4096 * total }

    function First(): nat { address / 4096 }

    function Pages(): nat { (length + 4095) / 4096 }

    /** Its first n steps mark page p; address 0 is ignored. */
    predicate Marked(p: nat, n: nat) { First() <= p < First() + n && (p != 0 || address != 0) }

    predicate Reserves(p: nat, total: nat) { Marks(total) && Marked(p, Pages()) }

    predicate Overruns(total: nat) { Marks(total) && First() + Pages() > total }

    /** Some byte of page p, or every byte of it, belongs to the entry. */
    predicate Touches(p: nat) { length > 0 && address < 4096 * (p + 1) && 4096 * p < address + length }

    predicate Contains(p: nat) { address <= 4096 * p && 4096 * (p + 1) <= address + length }
  }

  /** The pages used in `after` are those used in `before` and those that n steps of e mark. */
  ghost predicate MarkedBy(before: seq<Byte>, after: seq<Byte>, e: MapEntry, n: nat) {
    && |after| == |before|
    && forall p | 0 <= p < 8 * |before| :: PageUsed(after, p) <==> PageUsed(before, p) || e.Marked(p, n)
  }

  lemma MarkedByNext(before: seq<Byte>, now: seq<Byte>, e: MapEntry, n: nat, after: seq<Byte>)
    requires MarkedBy(before, now, e, n) && e.First() + n < 8 * |before|
    requires after == if e.address + 4096 * n == 0 then now else SetPage(now, e.First() + n)
    ensures MarkedBy(before, after, e, n + 1)
  {
    forall p | 0 <= p < 8 * |before|
      ensures PageUsed(after, p) <==> PageUsed(before, p) || e.Marked(p, n + 1)
    {
      if e.address + 4096 * n != 0 { SetPageView(now, e.First() + n, p); }
    }
  }

  /** The same for a list of entries. */
  ghost predicate MarkedByAll(before: seq<Byte>, after: seq<Byte>, es: seq<MapEntry>, n: nat)
    requires n <= |es|
  {
    && |after| == |before|
    && forall p | 0 <= p < 8 * |before| ::
         PageUsed(after, p) <==> PageUsed(before, p) || exists k :: 0 <= k < n && es[k].Reserves(p, 8 * |before|)
  }

  lemma MarkedByAllNext(before: seq<Byte>, now: seq<Byte>, es: seq<MapEntry>, n: nat, after: seq<Byte>)
    requires n < |es| && MarkedByAll(before, now, es, n)
    requires if es[n].Marks(8 * |before|) then MarkedBy(now, after, es[n], es[n].Pages()) else after == now
    ensures MarkedByAll(before, after, es, n + 1)
  {
    var total := 8 * |before|;
    forall p | 0 <= p < total
      ensures PageUsed(after, p) <==> PageUsed(before, p) || exists k :: 0 <= k < n + 1 && es[k].Reserves(p, total)
    {
      assert PageUsed(after, p) <==> PageUsed(now, p) || es[n].Reserves(p, total);
    }
  }

  /** Bytes alone: pages become used only where a reserved entry is, and all pages inside one but page 0 are. */
  ghost predicate ReservedUsed(before: seq<Byte>, after: seq<Byte>, es: seq<MapEntry>) {
    && |after| == |before|
    && (forall p | 0 <= p < 8 * |before| && PageUsed(before, p) :: PageUsed(after, p))
    && (forall p | 0 <= p < 8 * |before| && PageUsed(after, p) && !PageUsed(before, p) ::
          exists k :: 0 <= k < |es| && es[k].kind != 1 && es[k].Touches(p))
    && (forall p, k | 0 < p < 8 * |before| && 0 <= k < |es| && es[k].kind != 1 && es[k].Contains(p) ::
          PageUsed(after, p))
  }

  lemma ReservedIsWithin(e: MapEntry, p: nat, total: nat)
    requires e.Reserves(p, total)
    ensures e.kind != 1 && e.Touches(p)
  {
    assert e.address == 4096 * e.First() + e.address % 4096;
  }

  lemma InsideIsReserved(e: MapEntry, p: nat, total: nat)
    requires e.kind != 1 && e.Contains(p) && 0 < p < total
    ensures e.Reserves(p, total)
  {
    assert e.address == 4096 * e.First() + e.address % 4096;
  }

  lemma MarkedIsReserved(before: seq<Byte>, after: seq<Byte>, es: seq<MapEntry>)
    requires MarkedByAll(before, after, es, |es|)
    ensures ReservedUsed(before, after, es)
  {
    var total := 8 * |before|;
    forall p | 0 <= p < total && PageUsed(after, p) && !PageUsed(before, p)
      ensures exists k :: 0 <= k < |es| && es[k].kind != 1 && es[k].Touches(p)
    {
      var k :| 0 <= k < |es| && es[k].Reserves(p, total);
      ReservedIsWithin(es[k], p, total);
    }
    forall p, k | 0 < p < total && 0 <= k < |es| && es[k].kind != 1 && es[k].Contains(p)
      ensures PageUsed(after, p)
    {
      InsideIsReserved(es[k], p, total);
    }
  }

  /** Every page with a byte of the entry is marked, exactly unless the entry ends behind its last step. */
  lemma EntryCovered(e: MapEntry)
    requires e.address >= 4096
    ensures (forall p: nat | e.Touches(p) :: e.Marked(p, e.Pages()))
            <==> e.length == 0 || e.address % 4096 + e.length <= 4096 * e.Pages()
  {
    var last := e.First() + e.Pages();
    assert e.address == 4096 * e.First() + e.address % 4096;
    if e.length > 0 && e.address % 4096 + e.length > 4096 * e.Pages() {
      assert e.Touches(last) && !e.Marked(last, e.Pages());
    }
  }

  /** It happens: of 4096 reserved bytes from address 4100 on, the last four are in a page that stays free. */
  lemma LastPageMissed(e: MapEntry)
    requires e == MapEntry(4100, 4096, 2)
    ensures e.Touches(2) && !e.Marked(2, e.Pages())
  {
  }

  // ------------------------------------------------------- initialisation

  /** bitmap_size as computed by init_pmm. */
  function BitmapSize(memorySize: nat): nat {
    Align(memorySize / 4096, 0x100) / 8
  }

  /** The bitmap reaches the end of memory unless a partial page is cut off. */
  lemma BitmapReachesEnd(memorySize: nat)
    ensures memorySize <= 4096 * (8 * BitmapSize(memorySize))
            <==> memorySize % 4096 == 0 || (memorySize / 4096) % 0x100 != 0
  {
    var n := memorySize / 4096;
    Pow2OfWord();
    AlignIsCeiling(n, 8);
    AlignBounds(n, 0x100);
    RoundedReachesEnd(memorySize, n, Align(n, 0x100));
  }

  /** It happens: the last byte of 1 MiB + 1 lies behind the bitmap. */
  lemma BitmapFallsShort()
    ensures 1048577 > 4096 * (8 * BitmapSize(1048577))
  {
    BitmapReachesEnd(1048577);
  }

  lemma RoundedReachesEnd(memorySize: nat, n: nat, a: nat)
    requires n == memorySize / 4096
    requires n <= a < n + 0x100 && a % 0x100 == 0
    ensures memorySize <= 4096 * (8 * (a / 8))
            <==> memorySize % 4096 == 0 || n % 0x100 != 0
  {
    EighthOfMultiple(a);
    MultiplesFarApart(n, a);
    var rest := memorySize % 4096;
    assert memorySize == 4096 * n + rest;
  }

  lemma EighthOfMultiple(a: nat)
    requires a % 0x100 == 0
    ensures 8 * (a / 8) == a
  {
    var k := a / 0x100;
    assert a == 8 * (32 * k);
  }

  lemma MultiplesFarApart(n: nat, a: nat)
    requires n <= a < n + 0x100 && a % 0x100 == 0
    ensures n == a <==> n % 0x100 == 0
  {
    var k, l := a / 0x100, n / 0x100;
    assert a == 0x100 * k;
  }

  lemma {:induction false} EmptyBitmapRuns(bm: seq<Byte>, count: nat, q: nat)
    requires forall i | 0 <= i < |bm| :: bm[i] == 0
    requires 0 < count && q <= count < 8 * |bm|
    ensures RunLength(bm, q) == q && (q > 0 ==> RunStart(bm, q) == 0)
    ensures FirstHit(bm, count, q) == count
    ensures AllFree(bm, 0, 8 * |bm|)
    decreases count - q
  {
    forall p | 0 <= p < 8 * |bm|
      ensures !PageUsed(bm, p) && !Skipped(bm, p)
    {
      ZeroHasNoBits(p % 8);
    }
    FreeStretchCounts(bm, 0, q);
    if q < count { EmptyBitmapRuns(bm, count, q + 1); } else { FreeStretchCounts(bm, 0, q); }
  }

  /**
    init_pmm: on the cleared bitmap the kernel's own pages come out as the run
    starting at page 0, which is what its manual assertion demands, and the
    accounting starts exact.
   */
  lemma InitReservesKernel(bm: seq<Byte>, size: nat, count: nat)
    requires forall i | 0 <= i < |bm| :: bm[i] == 0
    requires 0 < count && 4096 * count < size <= 4096 * (8 * |bm|)
    ensures FirstHit(bm, count, 0) < 8 * |bm| && RunStart(bm, FirstHit(bm, count, 0)) == 0
    ensures var t := MarkRun(bm, 0, count);
            Accounted(t, 4096 * count, 0) && Covers(t, size)
  {
    EmptyBitmapRuns(bm, count, 0);
    EmptyBitmapRuns(bm, count, count);
    CountAfterMark(bm, 0, count);
    NothingUsed(bm, 8 * |bm|);
    MarkRunView(bm, 0, count, 0);
  }

  lemma {:induction false} NothingUsed(bm: seq<Byte>, n: nat)
    requires n <= 8 * |bm| && AllFree(bm, 0, 8 * |bm|)
    ensures CountUsed(bm, n) == 0
    decreases n
  {
    if n > 0 { NothingUsed(bm, n - 1); }
  }
}
