/** The physical page allocator of kernel/src/mem/pmm.c on its bitmap and counter. */
module PageAllocator {
  import opened Bits
  import opened PhysicalMemory

  class Allocator {
    const bitmap: array<Byte>
    /** phys_memory_size, in bytes. */
    const size: nat
    /** used_phys_memory_size, in bytes. */
    var used: int

    ghost function State(): Pages
      reads this, bitmap
    {
      Pages(bitmap[..], used)
    }

    /** The tables right after init_pmm has cleared them. */
    constructor (memorySize: nat, bitmapSize: nat)
      ensures size == memorySize && used == 0
      ensures fresh(bitmap) && bitmap.Length == bitmapSize
      ensures bitmap[..] == seq(bitmapSize, _ => 0)
    {
      size, used := memorySize, 0;
      bitmap := new Byte[bitmapSize](_ => 0);
    }

    /** pages_bitmap[i] |= (1 << j) */
    method SetBit(i: nat, j: nat)
      requires i < bitmap.Length && j < 8
      modifies bitmap
      ensures bitmap[..] == SetPage(old(bitmap[..]), 8 * i + j)
    {
      PageOfByte(bitmap[..], i, j);
      ByteAfterSet(bitmap[i], j);
      bitmap[i] := Or(bitmap[i], Pow2(j));
    }

    /** pages_bitmap[i] &= ~(1 << j) */
    method ClearBit(i: nat, j: nat)
      requires i < bitmap.Length && j < 8
      modifies bitmap
      ensures bitmap[..] == ClearPage(old(bitmap[..]), 8 * i + j)
    {
      PageOfByte(bitmap[..], i, j);
      ByteAfterClear(bitmap[i], j);
      bitmap[i] := And(bitmap[i], 255 - Pow2(j));
    }

    /** phys_alloc_single_page; `halted` is the endless emergency loop. */
    method AllocSinglePage() returns (halted: bool, addr: nat)
      modifies this`used, bitmap
      ensures halted <==> old(used) >= size
      ensures State() == Apply(old(State()), size, TakePage)
      ensures addr == if halted || FirstFree(old(bitmap[..]), 0) == 8 * bitmap.Length then 0
                      else 4096 * FirstFree(old(bitmap[..]), 0)
    {
      if used >= size {
        return true, 0;
      }
      ghost var bm := bitmap[..];
      var i := 0;
      while i < bitmap.Length
        invariant i <= bitmap.Length
        invariant forall q | 0 <= q < 8 * i :: PageUsed(bm, q)
        invariant bitmap[..] == bm && used == old(used)
      {
        if bitmap[i] == 0xff {
          FullByteView(bm, i);
        } else {
          var j := 0;
          while j < 8
            invariant j <= 8
            invariant forall q | 0 <= q < 8 * i + j :: PageUsed(bm, q)
            invariant bitmap[..] == bm && used == old(used)
          {
            assert (8 * i + j) / 8 == i && (8 * i + j) % 8 == j;
            if !Bit(bitmap[i], j) {
              assert !PageUsed(bm, 8 * i + j);
              assert FirstFree(bm, 0) == 8 * i + j;
              SetBit(i, j);
              used := used + 4096;
              return false, 4096 * 8 * i + j * 4096;
            }
            j := j + 1;
          }
        }
        i := i + 1;
      }
      return false, 0;
    }

    /** phys_free_single_page. */
    method FreeSinglePage(addr: nat)
      requires addr / (4096 * 8) < bitmap.Length
      modifies this`used, bitmap
      ensures addr == 0 ==> used == old(used) && bitmap[..] == old(bitmap[..])
      ensures addr != 0 ==>
                && used == old(used) - 4096
                && bitmap[..] == ClearPage(old(bitmap[..]), addr / 4096)
      ensures addr % 4096 == 0 ==> State() == Apply(old(State()), size, GivePage(addr / 4096))
    {
      if addr == 0 {
        return;
      }
      var i := addr / (4096 * 8);
      var j := (addr % (4096 * 8)) / 4096;
      PageOfAddress(addr);
      ClearBit(i, j);
      used := used - 4096;
    }

    /** phys_mark_page_entry; the counter is not touched, and a page beyond the bitmap halts. */
    method MarkPageEntry(addr: nat, use: bool) returns (halted: bool)
      modifies bitmap
      ensures halted <==> addr / 4096 >= 8 * bitmap.Length && addr != 0
      ensures bitmap[..] == if addr == 0 || halted then old(bitmap[..])
                            else if use then SetPage(old(bitmap[..]), addr / 4096)
                            else ClearPage(old(bitmap[..]), addr / 4096)
    {
      if addr == 0 {
        return false;
      }
      if addr / 4096 / 8 >= bitmap.Length {
        return true;
      }
      var i := addr / (4096 * 8);
      var j := (addr % (4096 * 8)) / 4096;
      PageOfAddress(addr);
      if use {
        SetBit(i, j);
      } else {
        ClearBit(i, j);
      }
      return false;
    }

    /** The inner loop of mark_reserved_memory_as_used. */
    method MarkEntry(e: MapEntry) returns (halted: bool)
      requires e.Marks(8 * bitmap.Length)
      modifies bitmap
      ensures halted <==> e.Overruns(8 * bitmap.Length)
      ensures !halted ==> MarkedBy(old(bitmap[..]), bitmap[..], e, e.Pages())
    {
      ghost var before := bitmap[..];
      var k := 0;
      while 4096 * k < e.length
        invariant 0 <= k <= e.Pages() && MarkedBy(before, bitmap[..], e, k)
        invariant k > 0 ==> e.First() + k <= 8 * bitmap.Length
        decreases e.length - 4096 * k
      {
        ghost var now := bitmap[..];
        assert (e.address + 4096 * k) / 4096 == e.First() + k;
        halted := MarkPageEntry(e.address + 4096 * k, true);
        if halted {
          return;
        }
        MarkedByNext(before, now, e, k, bitmap[..]);
        k := k + 1;
      }
      halted := false;
    }

    /** mark_reserved_memory_as_used: exactly the reserved pages become used, and the counter stays. */
    method MarkReserved(es: seq<MapEntry>) returns (halted: bool)
      modifies bitmap
      ensures halted <==> exists k :: 0 <= k < |es| && es[k].Overruns(8 * bitmap.Length)
      ensures !halted ==> MarkedByAll(old(bitmap[..]), bitmap[..], es, |es|)
      ensures !halted ==> ReservedUsed(old(bitmap[..]), bitmap[..], es)
    {
      ghost var before := bitmap[..];
      var n := 0;
      while n < |es|
        invariant 0 <= n <= |es| && MarkedByAll(before, bitmap[..], es, n)
        invariant forall k | 0 <= k < n :: !es[k].Overruns(8 * bitmap.Length)
      {
        ghost var now := bitmap[..];
        if es[n].address < bitmap.Length * 4096 * 8 && es[n].kind != 1 {
          halted := MarkEntry(es[n]);
          if halted {
            return;
          }
        }
        MarkedByAllNext(before, now, es, n, bitmap[..]);
        n := n + 1;
      }
      MarkedIsReserved(before, bitmap[..], es);
      halted := false;
    }

    /** phys_is_used_page. */
    method IsUsedPage(addr: nat) returns (r: bool)
      requires addr / (4096 * 8) < bitmap.Length
      ensures r <==> addr == 0 || PageUsed(bitmap[..], addr / 4096)
    {
      if addr == 0 {
        return true;
      }
      var i := addr / (4096 * 8);
      var j := (addr % (4096 * 8)) / 4096;
      PageOfAddress(addr);
      return Bit(bitmap[i], j);
    }

    /** phys_alloc_multi_pages; page 0 can be a result, so success is separate. */
    method AllocMultiPages(count: nat) returns (halted: bool, found: bool, addr: nat)
      modifies this`used, bitmap
      ensures halted <==> old(used) + count * 4096 >= size
      ensures found <==> !halted && FirstHit(old(bitmap[..]), count, 0) < 8 * bitmap.Length
      ensures !found ==> addr == 0 && used == old(used) && bitmap[..] == old(bitmap[..])
      ensures found ==>
                var bm := old(bitmap[..]);
                var s := RunStart(bm, FirstHit(bm, count, 0));
                && addr == 4096 * s
                && used == old(used) + 4096 * count
                && bitmap[..] == MarkRun(bm, s, count)
    {
      if used + count * 4096 >= size {
        return true, false, 0;
      }
      var hit, si, sj := FindRun(count);
      if !hit {
        return false, false, 0;
      }
      ghost var bm := bitmap[..];
      MarkFrom(si, sj, count);
      assert bitmap[..] == MarkRun(bm, 8 * si + sj, count);
      used := used + 4096 * count;
      return false, true, 4096 * 8 * si + sj * 4096;
    }

    /** The search loops of phys_alloc_multi_pages. */
    method FindRun(count: nat) returns (hit: bool, si: nat, sj: nat)
      ensures hit <==> FirstHit(bitmap[..], count, 0) < 8 * bitmap.Length
      ensures hit ==> sj < 8 && 8 * si + sj == RunStart(bitmap[..], FirstHit(bitmap[..], count, 0))
    {
      ghost var bm := bitmap[..];
      var counter := 0;
      si, sj := 0, 0;
      var i := 0;
      while i < bitmap.Length
        invariant 0 <= i <= bitmap.Length
        invariant ScanState(bm, count, 8 * i, counter, 8 * si + sj) && sj < 8
      {
        if bitmap[i] == 0xff {
          ScanSkipped(bm, count, i, counter, 8 * si + sj, 8);
        } else {
          hit, counter, si, sj := FindInByte(bm, bitmap[i], i, count, counter, si, sj);
          if hit {
            return;
          }
        }
        i := i + 1;
      }
      return false, 0, 0;
    }

    /** The inner loop of the search, over the eight pages of byte b = bm[i]. */
    static method FindInByte(ghost bm: seq<Byte>, b: Byte, i: nat, count: nat, counter0: nat, si0: nat, sj0: nat)
      returns (hit: bool, counter: nat, si: nat, sj: nat)
      requires i < |bm| && b == bm[i] != 0xff && sj0 < 8
      requires ScanState(bm, count, 8 * i, counter0, 8 * si0 + sj0)
      ensures sj < 8
      ensures hit ==> var h := FirstHit(bm, count, 0);
                      h < 8 * |bm| && 8 * si + sj == RunStart(bm, h)
      ensures !hit ==> ScanState(bm, count, 8 * i + 8, counter, 8 * si + sj)
    {
      counter, si, sj := counter0, si0, sj0;
      var j := 0;
      while j < 8
        invariant 0 <= j <= 8
        invariant ScanState(bm, count, 8 * i + j, counter, 8 * si + sj) && sj < 8
      {
        hit, counter, si, sj := ScanPage(bm, b, i, j, count, counter, si, sj);
        if hit {
          return;
        }
        j := j + 1;
      }
      return false, counter, si, sj;
    }

    /** Its body, at page 8 * i + j. */
    static method ScanPage(ghost bm: seq<Byte>, b: Byte, i: nat, j: nat, count: nat, counter0: nat, si0: nat, sj0: nat)
      returns (hit: bool, counter: nat, si: nat, sj: nat)
      requires i < |bm| && b == bm[i] != 0xff && j < 8 && sj0 < 8
      requires ScanState(bm, count, 8 * i + j, counter0, 8 * si0 + sj0)
      ensures sj < 8
      ensures hit ==> var h := FirstHit(bm, count, 0);
                      h < 8 * |bm| && 8 * si + sj == RunStart(bm, h)
      ensures !hit ==> ScanState(bm, count, 8 * i + j + 1, counter, 8 * si + sj)
    {
      counter, si, sj := counter0, si0, sj0;
      ghost var q := 8 * i + j;
      PageOfByte(bm, i, j);
      if !Bit(b, j) {
        if counter > 0 && counter == count {
          ScanHit(bm, count, q, counter, 8 * si + sj);
          return true, counter, si, sj;
        }
        ScanFree(bm, count, q, counter, 8 * si + sj);
        if counter == 0 {
          si, sj := i, j;
        }
        counter := counter + 1;
      } else {
        ScanUsed(bm, count, q, counter, 8 * si + sj);
        counter := 0;
      }
      hit := false;
    }

    /** The two marking loops inside phys_alloc_multi_pages. */
    method MarkFrom(si0: nat, sj0: nat, count: nat)
      requires sj0 < 8 && count > 0 && 8 * si0 + sj0 + count <= 8 * bitmap.Length
      modifies bitmap
      ensures bitmap[..] == MarkRun(old(bitmap[..]), 8 * si0 + sj0, count)
    {
      ghost var bm, start, done: nat := bitmap[..], 8 * si0 + sj0, 0;
      var counter, si, sj := count, si0, sj0;
      while counter > 0
        invariant sj < 8 && done + counter == count && 8 * si + sj == start + done
        invariant bitmap[..] == MarkRun(bm, start, done)
      {
        SetBit(si, sj);
        counter, done := counter - 1, done + 1;
        si, sj := NextPage(si, sj);
      }
    }

    /** The step of the two nested byte-and-bit loops. */
    static method NextPage(i: nat, j: nat) returns (i': nat, j': nat)
      requires j < 8
      ensures j' < 8 && 8 * i' + j' == 8 * i + j + 1
    {
      if j == 7 {
        return i + 1, 0;
      }
      return i, j + 1;
    }

    /**
      phys_free_multi_pages. The byte counter is only adjusted when the loops
      run off the end of the bitmap.
     */
    method FreeMultiPages(addr: nat, count: nat)
      modifies this`used, bitmap
      ensures addr == 0 ==> used == old(used) && bitmap[..] == old(bitmap[..])
      ensures addr != 0 ==>
                && used == old(used) - CounterDrop(8 * bitmap.Length, addr / 4096, count)
                && bitmap[..] == ClearClipped(old(bitmap[..]), addr / 4096, Rounds(count))
    {
      if addr == 0 {
        return;
      }
      var i := addr / (4096 * 8);
      var j := (addr % (4096 * 8)) / 4096;
      PageOfAddress(addr);
      var left := Rounds(count);
      if i < bitmap.Length {
        left := ClearFrom(i, j, left);
        if left == 0 {
          return;
        }
      }
      // 4096 * 2^32 is 0 in the 32-bit counter.
      var wrap: int := if count == 0 then 0x1_0000_0000 else 0;
      used := used - 4096 * (left - wrap);
    }

    /**
      k times a multi-page allocation and the free of what it gave, as loading
      and dropping programs does: the bitmap comes back every time and the
      counter never does, until an allocation ends in the endless loop.
     */
    method AllocAndFree(count: nat, k: nat) returns (halted: bool)
      requires FreeRunAhead(bitmap[..], count)
      modifies this`used, bitmap
      ensures bitmap[..] == old(bitmap[..])
      ensures halted <==> k > 0 && old(used) + k * (4096 * count) >= size
      ensures !halted ==> used == old(used) + k * (4096 * count)
    {
      ghost var bm, u, c := bitmap[..], used, 4096 * count;
      var n := 0;
      assert n * c == 0;
      while n < k
        invariant 0 <= n <= k && bitmap[..] == bm && used == u + n * c
        invariant n > 0 ==> used < size
      {
        NextMultiple(n, k, c);
        halted := OneRound(count);
        if halted {
          return;
        }
        n := n + 1;
      }
      return false;
    }

    method OneRound(count: nat) returns (halted: bool)
      requires FreeRunAhead(bitmap[..], count)
      modifies this`used, bitmap
      ensures bitmap[..] == old(bitmap[..])
      ensures halted <==> old(used) + 4096 * count >= size
      ensures used == if halted then old(used) else old(used) + 4096 * count
    {
      ghost var bm := bitmap[..];
      var found, addr;
      halted, found, addr := AllocMultiPages(count);
      if halted {
        return;
      }
      RoundRestores(bm, count, addr);
      assert bitmap[..] == MarkRun(bm, addr / 4096, count);
      FreeMultiPages(addr, count);
    }

    method ClearNext(i: nat, j: nat, ghost bm: seq<Byte>, ghost start: nat, ghost done: nat)
      requires i < bitmap.Length && j < 8 && 8 * i + j == start + done && bitmap.Length == |bm|
      requires bitmap[..] == ClearRun(bm, start, done)
      modifies bitmap
      ensures bitmap[..] == ClearRun(bm, start, done + 1)
    {
      ClearBit(i, j);
      ClearRunStep(bm, start, done);
    }

    /** The clearing loops inside phys_free_multi_pages, with the pages they leave. */
    method ClearFrom(i0: nat, j0: nat, count: nat) returns (left: nat)
      requires i0 < bitmap.Length && j0 < 8 && count >= 1
      modifies bitmap
      ensures left == if 8 * i0 + j0 + count <= 8 * bitmap.Length then 0
                      else 8 * i0 + j0 + count - 8 * bitmap.Length
      ensures bitmap[..] == ClearRun(old(bitmap[..]), 8 * i0 + j0, count - left)
    {
      ghost var bm, start, done: nat := bitmap[..], 8 * i0 + j0, 0;
      var i, j := i0, j0;
      left := count;
      while i < bitmap.Length && left > 0
        invariant j < 8 && i <= bitmap.Length && (i == bitmap.Length ==> j == 0)
        invariant done + left == count && 8 * i + j == start + done
        invariant bitmap[..] == ClearRun(bm, start, done)
      {
        ClearNext(i, j, bm, start, done);
        left, done := left - 1, done + 1;
        i, j := NextPage(i, j);
      }
      assert done == count - left;
    }
  }
}
