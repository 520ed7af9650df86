/**
  The page map of kernel/src/arch/x86/mem/paging.c over the physical page
  allocator, with the mapping loop that kernel/src/mem/vmm.c runs on it.
 */
module Paging {
  import opened Bits
  import opened PhysicalMemory
  import opened PageAllocator
  import opened HeapTable
  import opened PageMapping
  import opened PageSets
  import opened PageSpace

  class AddressSpace {
    const phys: Allocator
    var tables: PageMap
    var pages: PageMap

    ghost predicate Mapped()
      reads this, phys.bitmap
    {
      Sound(tables, pages, phys.bitmap[..])
    }

    ghost function Now(): Space
      reads this, phys, phys.bitmap
    {
      Space(tables.Keys, pages.Keys, phys.used, FreeLeft(phys.bitmap[..]))
    }

    /** No heap pages yet. Only frame 0 need be taken; the counter may be anything. */
    constructor (p: Allocator)
      requires p.bitmap.Length > 0 && PageUsed(p.bitmap[..], 0)
      ensures phys == p && Mapped() && pages == map[] && tables == map[]
    {
      phys, tables, pages := p, map[], map[];
    }

    /** phys_alloc_single_page, as the heap sees it; the answer 0 is told apart. */
    method NewFrame() returns (got: Got, f: nat)
      requires Mapped()
      modifies phys`used, phys.bitmap
      ensures Mapped() && KeepsOwned(old(phys.bitmap[..]), phys.bitmap[..])
      ensures Took(old(phys.used), old(FreeLeft(phys.bitmap[..])), phys.size, 1, got,
                   phys.used, FreeLeft(phys.bitmap[..]))
      ensures got.Enough? ==> && PageFree(old(phys.bitmap[..]), f)
                              && Owned(phys.bitmap[..], f) && Unbound(tables, pages, f)
    {
      ghost var bm := phys.bitmap[..];
      NoneLeft(bm);
      var halted, addr := phys.AllocSinglePage();
      if halted {
        return Halts, 0;
      }
      if addr == 0 {
        return NoFrame, 0;
      }
      TakeFrame(tables, pages, bm);
      return Enough, addr / 4096;
    }

    /** The first half of map_single_page: a missing page table takes a frame of its own. */
    method EnsureTable(d: nat, ghost f: nat) returns (got: Got)
      requires Mapped() && Owned(phys.bitmap[..], f) && Unbound(tables, pages, f)
      modifies this`tables, phys`used, phys.bitmap
      ensures Mapped() && KeepsOwned(old(phys.bitmap[..]), phys.bitmap[..]) && Extends(old(tables), tables)
      ensures var k := if d in old(tables) then 0 else 1;
              Took(old(phys.used), old(FreeLeft(phys.bitmap[..])), phys.size, k, got,
                   phys.used, FreeLeft(phys.bitmap[..]))
      ensures got.Enough? ==> d in tables && tables.Keys == old(tables.Keys) + {d} && Unbound(tables, pages, f)
    {
      if d in tables {
        return Enough;
      }
      var tf;
      got, tf := NewFrame();
      if got.Enough? {
        AddTable(tables, pages, phys.bitmap[..], d, tf);
        KeysAfterAdd(tables, d, tf);
        tables := tables[d := tf];
      }
    }

    /** map_single_page */
    method MapSinglePage(f: nat, v: nat) returns (got: Got)
      requires Mapped() && v !in pages && Owned(phys.bitmap[..], f) && Unbound(tables, pages, f)
      modifies this, phys`used, phys.bitmap
      ensures Mapped() && KeepsOwned(old(phys.bitmap[..]), phys.bitmap[..])
      ensures var k := if v / 1024 in old(tables) then 0 else 1;
              Took(old(phys.used), old(FreeLeft(phys.bitmap[..])), phys.size, k, got,
                   phys.used, FreeLeft(phys.bitmap[..]))
      ensures pages == if got.Enough? then old(pages)[v := f] else old(pages)
      ensures got.Enough? ==> tables.Keys == old(tables.Keys) + {v / 1024}
      ensures Extends(old(tables), tables)
    {
      got := EnsureTable(v / 1024, f);
      if got.Enough? {
        AddPage(tables, pages, phys.bitmap[..], v, f);
        pages := pages[v := f];
      }
    }

    /** The body of the mapping loop: page v, unless it is mapped already. */
    method EnsurePage(v: nat) returns (got: Got)
      requires Mapped()
      modifies this, phys`used, phys.bitmap
      ensures Mapped() && KeepsOwned(old(phys.bitmap[..]), phys.bitmap[..])
      ensures Extends(old(pages), pages) && Extends(old(tables), tables)
      ensures got == GotPage(old(Now()), phys.size, v)
      ensures got.Enough? ==> Now() == WithPage(old(Now()), v)
    {
      ghost var s := Now();
      if v in pages {
        assert pages.Keys + {v} == pages.Keys;
        return Enough;
      }
      ghost var k := if v / 1024 in tables then 0 else 1;
      var f;
      got, f := NewFrame();
      ghost var u1, f1 := phys.used, FreeLeft(phys.bitmap[..]);
      if !got.Enough? {
        VerdictMore(s.used, s.free, phys.size, 1, 1 + k);
      } else {
        KeysAfterAdd(pages, v, f);
        got := MapSinglePage(f, v);
        TookBoth(s.used, s.free, phys.size, 1, u1, f1, k, got, phys.used, FreeLeft(phys.bitmap[..]));
      }
    }

    /** The loop that maps every page of a block that is not mapped yet: how it ends, and what is mapped then. */
    method EnsureMapped(address: nat, size: nat) returns (got: Got)
      requires Mapped()
      modifies this, phys`used, phys.bitmap
      ensures Mapped() && KeepsOwned(old(phys.bitmap[..]), phys.bitmap[..])
      ensures Extends(old(pages), pages) && Extends(old(tables), tables)
      ensures got == GotPages(old(Now()), phys.size, address / 4096, PageCount(size))
      ensures got.Enough? ==> Now() == WithPages(old(Now()), address / 4096, PageCount(size))
    {
      PageCeiling(size);
      got := MapUpTo(address / 4096, Align(size, 4096), PageCount(size));
    }

    method MapUpTo(first: nat, limit: nat, ghost n: nat) returns (got: Got)
      requires Mapped() && 4096 * n == limit + 4096
      modifies this, phys`used, phys.bitmap
      ensures Mapped() && KeepsOwned(old(phys.bitmap[..]), phys.bitmap[..])
      ensures Extends(old(pages), pages) && Extends(old(tables), tables)
      ensures got == GotPages(old(Now()), phys.size, first, n)
      ensures got.Enough? ==> Now() == WithPages(old(Now()), first, n)
    {
      ghost var s := Now();
      var k := 0;
      while 4096 * k <= limit
        invariant Mapped() && KeepsOwned(old(phys.bitmap[..]), phys.bitmap[..])
        invariant Extends(old(pages), pages) && Extends(old(tables), tables)
        invariant 0 <= k <= n && GotPages(s, phys.size, first, k) == Enough && Now() == WithPages(s, first, k)
        decreases n - k
      {
        NextPage(s, phys.size, first, k);
        got := EnsurePage(first + k);
        if !got.Enough? {
          PagesFail(s, phys.size, first, k + 1, n);
          return;
        }
        k := k + 1;
      }
      assert k == n;
      return Enough;
    }

    /** unmap_single_page and phys_free_single_page on one mapped page. */
    method Release(v: nat)
      requires Mapped() && v in pages
      modifies this`pages, phys`used, phys.bitmap
      ensures Mapped()
      ensures pages == old(pages) - {v} && Now() == WithoutPage(old(Now()), v)
    {
      var f := pages[v];
      ghost var bm := phys.bitmap[..];
      DropPage(tables, pages, bm, v);
      FrameAddress(f, phys.bitmap.Length);
      KeysAfterDrop(pages, {v});
      pages := pages - {v};
      phys.FreeSinglePage(4096 * f);
      assert phys.bitmap[..] == ClearPage(bm, f);
    }
  }
}
