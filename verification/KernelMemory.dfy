/**
  kmalloc_common, kfree and krealloc_common of kernel/src/mem/vmm.c over the
  block table, the physical page allocator and the page map.
 */
module KernelMemory {
  import opened Bits
  import opened PhysicalMemory
  import opened HeapTable
  import opened HeapArray
  import opened PageMapping
  import opened PageSets
  import opened PageSpace
  import opened Paging
  import opened HeapView

  class Kernel {
    const heap: Heap
    const space: AddressSpace
    var ram: Ram

    ghost predicate Valid()
      reads heap, heap.memory, space, space.phys.bitmap
    {
      heap.Valid() && space.Mapped() && Backed(heap.Live(), space.pages)
    }

    ghost function Now(): View
      requires heap.Valid()
      reads heap, heap.memory, space, space.phys, space.phys.bitmap
    {
      View(heap.Live(), space.Now())
    }

    ghost function Limits(): Bounds {
      Bounds(heap.start, heap.memory.Length, space.phys.size)
    }

    /** The heap right after vmm_init: no blocks yet. */
    constructor (h: Heap, s: AddressSpace, bytes: Ram)
      requires h.Valid() && h.Live() == [] && s.Mapped()
      ensures heap == h && space == s && Valid()
    {
      heap, space, ram := h, s, bytes;
    }

    /** kmalloc_common. */
    method Kmalloc(size: nat, align: nat) returns (got: Got, mem: nat)
      requires Valid() && RoomBehind(heap.Live(), heap.start, size + 8192, align)
      modifies space, space.phys`used, space.phys.bitmap, heap, heap.memory
      ensures got == KmallocGot(old(Now()), Limits(), size, align)
      ensures got.Enough? ==> Valid() && Now() == KmallocView(old(Now()), Limits(), size, align)
      ensures got.Enough? ==> mem == NewAddress(old(Now()), Limits(), size, align) && mem >= heap.start
      ensures got.Enough? ==> KeepsOthers(old(heap.Live()), heap.Live(), 0, old(space.pages), ram, space.pages, ram)
      ensures Extends(old(space.pages), space.pages)
      ensures KeepsOwned(old(space.phys.bitmap[..]), space.phys.bitmap[..])
    {
      ghost var t, s, p0 := heap.Live(), space.Now(), space.pages;
      var halted;
      halted, mem := heap.AllocNoMap(size, align);
      if halted {
        return Halts, 0;
      }
      got := space.EnsureMapped(mem, size);
      if got.Enough? {
        RangeMapped(s, space.pages, mem / 4096, PageCount(size));
        BackedAfterAlloc(t, heap.start, size, align, p0, space.pages);
        MallocKeepsOthers(t, heap.start, size, align, p0, space.pages, ram, 0);
        AllocSlot(t, heap.start, size, align, NewIndex(t, size, align));
      }
    }

    /** kfree. */
    method Kfree(ptr: nat)
      requires Valid()
      modifies space`pages, space.phys`used, space.phys.bitmap, heap, heap.memory
      ensures Valid() && Now() == KfreeView(old(Now()), ptr)
      ensures OnlyUntouchedGone(old(space.pages), space.pages, heap.Live())
      ensures KeepsOthers(old(heap.Live()), heap.Live(), ptr, old(space.pages), ram, space.pages, ram)
    {
      ghost var t, p0 := heap.Live(), space.pages;
      var i := heap.GetBlockIndex(ptr);
      if ptr == 0 || i == heap.count {
        NothingChanged(t, p0, ram, ptr);
        return;
      }
      var block := heap.memory[i];
      assert t[i] == block;
      BackedAfterRemove(t, i, space.pages);
      heap.FreeNoMap(ptr);
      Unmap(block);
      FreeKeepsOthers(t, i, p0, space.pages, ram);
    }

    /** The loop of kfree over the pages of a block already out of the table. */
    method Unmap(block: Entry)
      requires Valid() && MappedFrom(space.pages, block, 0)
      modifies space`pages, space.phys`used, space.phys.bitmap
      ensures Valid() && space.Now() == AfterVisits(old(space.Now()), heap.Live(), block, VisitedPages(block))
      ensures OnlyUntouchedGone(old(space.pages), space.pages, heap.Live())
    {
      ghost var p0, v := space.pages, space.Now();
      var k := 0;
      while 4096 * k < block.length
        invariant Valid() && 0 <= k <= VisitedPages(block)
        invariant Unmapping(heap.Live(), block, k, p0, v, space.pages, space.Now())
        decreases block.length - 4096 * k
      {
        VisitLeft(block, k);
        ReleaseNext(block, k, p0, v);
        k := k + 1;
      }
      VisitLeft(block, k);
    }

    method ReleaseNext(block: Entry, k: nat, ghost p0: PageMap, ghost v: Space)
      requires Valid() && 4096 * k < block.length
      requires Unmapping(heap.Live(), block, k, p0, v, space.pages, space.Now())
      modifies space`pages, space.phys`used, space.phys.bitmap
      ensures Valid() && Unmapping(heap.Live(), block, k + 1, p0, v, space.pages, space.Now())
    {
      var a := block.address + 4096 * k;
      assert a / 4096 == block.address / 4096 + k;
      BytesAreTouched(block, a);
      UnmappingNext(heap.Live(), block, k, p0, v, space.pages, space.Now(), a / 4096);
      ReleaseIfUnused(a);
    }

    /** The body of that loop, on the page at address a. */
    method ReleaseIfUnused(a: nat)
      requires Valid() && a / 4096 in space.pages
      modifies space`pages, space.phys`used, space.phys.bitmap
      ensures Valid()
      ensures if Untouched(heap.Live(), a / 4096)
              then && space.pages == old(space.pages) - {a / 4096}
                   && space.Now() == WithoutPage(old(space.Now()), a / 4096)
              else space.pages == old(space.pages) && space.Now() == old(space.Now())
    {
      var inUse := heap.IsPageUsedByEntries(a);
      if !inUse {
        BackedWithout(heap.Live(), space.pages, a / 4096);
        space.Release(a / 4096);
      }
    }

    /** memcpy between virtual addresses; touching an unmapped page is a fault. */
    method Memcpy(dst: nat, src: nat, n: nat) returns (fault: bool)
      requires Injective(space.pages)
      modifies this`ram
      ensures fault <==> !(AllPresent(space.pages, dst, n) && AllPresent(space.pages, src, n))
      ensures !fault && (dst + n <= src || src + n <= dst) ==> CopiedBytes(space.pages, old(ram), ram, dst, src, n)
      ensures SameOutside(space.pages, old(ram), ram, dst, n)
    {
      var k := 0;
      while k < n
        invariant k <= n && AllPresent(space.pages, dst, k) && AllPresent(space.pages, src, k)
        invariant dst + n <= src || src + n <= dst ==> CopiedBytes(space.pages, old(ram), ram, dst, src, k)
        invariant SameOutside(space.pages, old(ram), ram, dst, k)
      {
        if !Present(space.pages, dst + k) || !Present(space.pages, src + k) {
          return true;
        }
        StoreByte(dst + k, Load(space.pages, ram, src + k));
        k := k + 1;
      }
      return false;
    }

    /** A store through the page map changes that virtual byte and no other. */
    method StoreByte(a: nat, b: Byte)
      requires Injective(space.pages) && Present(space.pages, a)
      modifies this`ram
      ensures Load(space.pages, ram, a) == b
      ensures forall c | c != a :: Load(space.pages, ram, c) == Load(space.pages, old(ram), c)
    {
      forall c: nat { PokedByte(space.pages, ram, a, b, c); }
      ram := Poked(space.pages, ram, a, b);
    }

    /**
      krealloc_common. In the move path `block` is a pointer into the table,
      read again after kmalloc_common may have shifted it: the model keeps the
      slot number and reads the slot again.
     */
    method Krealloc(ptr: nat, size: nat, align: nat) returns (r: Outcome)
      requires Valid() && RoomBehind(heap.Live(), heap.start, size + 8192, align)
      modifies this, space, space.phys`used, space.phys.bitmap, heap, heap.memory
      ensures r == KreallocOutcome(old(Now()), Limits(), ptr, size, align)
      ensures r.Done? ==> Valid() && Now() == KreallocView(old(Now()), Limits(), ptr, size, align)
      ensures r.Done? ==>
                ReallocKept(old(heap.Live()), heap.start, ptr, r.ptr, size, align, heap.Live(),
                            old(space.pages), old(ram), space.pages, ram)
      ensures var t := old(heap.Live());
              var i := IndexOf(t, ptr);
              r.Done? && ptr != 0 && i < |t| ==>
                && Reallocated(t, heap.Live(), i, r.ptr, size)
                && (r.ptr == ptr <== i + 1 == |t| || size <= t[i].length || ptr + size < t[i + 1].address)
    {
      ghost var t, v := heap.Live(), Now();
      var i := heap.GetBlockIndex(ptr);
      if ptr == 0 || i == heap.count {
        NothingChanged(t, space.pages, ram, ptr);
        return Done(0);
      }
      r := ReallocBlock(ptr, i, size, align);
      if r.Done? {
        ReallocEnds(v, Limits(), ptr, size, align, r, heap.Live());
      }
    }

    /** The branches of krealloc_common for a block that was found. */
    method ReallocBlock(ptr: nat, i: nat, size: nat, align: nat) returns (r: Outcome)
      requires Valid() && RoomBehind(heap.Live(), heap.start, size + 8192, align)
      requires ptr != 0 && i == IndexOf(heap.Live(), ptr) && i < heap.count
      modifies this, space, space.phys`used, space.phys.bitmap, heap, heap.memory
      ensures r == KreallocOutcome(old(Now()), Limits(), ptr, size, align)
      ensures r.Done? ==> Valid() && Now() == KreallocView(old(Now()), Limits(), ptr, size, align)
      ensures r.Done? ==>
                ReallocKept(old(heap.Live()), heap.start, ptr, r.ptr, size, align, heap.Live(),
                            old(space.pages), old(ram), space.pages, ram)
    {
      ghost var t := heap.Live();
      assert heap.memory[i] == t[i] && t[i].address == ptr;
      assert i + 1 < |t| ==> heap.memory[i + 1] == t[i + 1];
      if size > heap.memory[i].length && i < heap.count - 1 && heap.memory[i + 1].address <= ptr + size {
        r := ReallocMoving(ptr, i, size, align);
      } else {
        r := ReallocInPlace(ptr, i, size, align);
      }
    }

    method ReallocMoving(ptr: nat, i: nat, size: nat, align: nat) returns (r: Outcome)
      requires Valid() && RoomBehind(heap.Live(), heap.start, size + 8192, align)
      requires ptr != 0 && i == IndexOf(heap.Live(), ptr) && i < heap.count && Moves(heap.Live(), i, size)
      modifies this, space, space.phys`used, space.phys.bitmap, heap, heap.memory
      ensures r == KreallocOutcome(old(Now()), Limits(), ptr, size, align)
      ensures r.Done? ==> Valid() && Now() == KreallocView(old(Now()), Limits(), ptr, size, align)
      ensures r.Done? ==>
                ReallocKept(old(heap.Live()), heap.start, ptr, r.ptr, size, align, heap.Live(),
                            old(space.pages), old(ram), space.pages, ram)
    {
      ghost var t, p0, r0 := heap.Live(), space.pages, ram;
      MovingBlock(Now(), Limits(), ptr, i, size, align);
      r := Move(i, size, align);
      if r.Done? {
        KeptByMove(t, heap.start, ptr, i, size, align, heap.Live(), p0, r0, space.pages, ram);
      }
    }

    method ReallocInPlace(ptr: nat, i: nat, size: nat, ghost align: nat) returns (r: Outcome)
      requires Valid() && ptr != 0 && i == IndexOf(heap.Live(), ptr) && i < heap.count && !Moves(heap.Live(), i, size)
      modifies space, space.phys`used, space.phys.bitmap, heap, heap.memory
      ensures r == KreallocOutcome(old(Now()), Limits(), ptr, size, align)
      ensures r.Done? ==> Valid() && Now() == KreallocView(old(Now()), Limits(), ptr, size, align)
      ensures r.Done? ==>
                ReallocKept(old(heap.Live()), heap.start, ptr, r.ptr, size, align, heap.Live(),
                            old(space.pages), ram, space.pages, ram)
    {
      ghost var t, p0 := heap.Live(), space.pages;
      if size > heap.memory[i].length {
        r := GrowInPlace(i, size);
      } else {
        r := Shrink(i, size);
      }
      if r.Done? {
        KeptInPlace(t, heap.start, ptr, size, align, heap.Live(), p0, ram, space.pages, ram);
      }
    }

    /** The shrinking branch: the length changes and no page is given back. */
    method Shrink(i: nat, size: nat) returns (r: Outcome)
      requires Valid() && i < heap.count && size <= heap.memory[i].length
      modifies heap`used, heap.memory
      ensures Valid() && Now() == old(Now()).(t := Resized(old(heap.Live()), i, size))
      ensures r == Done(old(heap.Live())[i].address)
      ensures KeepsPrefix(r.ptr, r.ptr, size, space.pages, ram, space.pages, ram)
      ensures KeepsOthers(old(heap.Live()), heap.Live(), r.ptr, space.pages, ram, space.pages, ram)
    {
      ghost var t := heap.Live();
      ResizeKeepsOthers(t, i, size, space.pages, space.pages, ram);
      BackedAfterResize(t, i, size, space.pages, space.pages);
      BlockIsPresent(t, i, space.pages);
      r := Done(heap.memory[i].address);
      if size < heap.memory[i].length {
        heap.Resize(i, size);
      } else {
        assert t == Resized(t, i, size);
      }
    }

    /** The two branches that grow a block where it is. */
    method GrowInPlace(i: nat, size: nat) returns (r: Outcome)
      requires Valid() && i < heap.count && heap.memory[i].length < size
      requires i + 1 < heap.count ==> heap.memory[i].address + size < heap.memory[i + 1].address
      modifies space, space.phys`used, space.phys.bitmap, heap`used, heap.memory
      ensures var v, e := old(Now()), old(heap.Live())[i];
              r == Ended(GotPages(v.s, Limits().size, e.address / 4096, PageCount(size)), e.address)
      ensures r.Done? ==>
                var v, e := old(Now()), old(heap.Live())[i];
                Valid() && Now() == View(Resized(v.t, i, size), WithPages(v.s, e.address / 4096, PageCount(size)))
      ensures r.Done? ==> && Valid()
                          && KeepsPrefix(r.ptr, r.ptr, old(heap.Live())[i].length,
                                         old(space.pages), ram, space.pages, ram)
                          && KeepsOthers(old(heap.Live()), heap.Live(), r.ptr, old(space.pages), ram, space.pages, ram)
    {
      ghost var t, s, p0 := heap.Live(), space.Now(), space.pages;
      var address := heap.memory[i].address;
      var got := space.EnsureMapped(address, size);
      if got.Enough? {
        RangeMapped(s, space.pages, address / 4096, PageCount(size));
        BackedAfterResize(t, i, size, p0, space.pages);
        GrowthKeepsBytes(t, i, p0, space.pages, ram);
        ResizeKeepsOthers(t, i, size, p0, space.pages, ram);
        heap.Resize(i, size);
      }
      return Ended(got, address);
    }

    /** The branch that moves a block: a new one is filled and the old one freed. */
    method Move(i: nat, size: nat, align: nat) returns (r: Outcome)
      requires Valid() && RoomBehind(heap.Live(), heap.start, size + 8192, align)
      requires i < heap.count && heap.memory[i].length < size
      modifies this, space, space.phys`used, space.phys.bitmap, heap, heap.memory
      ensures r == MoveOutcome(old(Now()), Limits(), i, size, align)
      ensures r.Done? ==> Valid()
      ensures r.Done? ==>
                Now() == KfreeView(KmallocView(old(Now()), Limits(), size, align), old(heap.Live())[i].address)
      ensures r.Done? ==>
                MoveKept(old(heap.Live()), heap.start, i, size, align, heap.Live(),
                         old(space.pages), old(ram), space.pages, ram)
    {
      ghost var t, p0, r0 := heap.Live(), space.pages, ram;
      var ptr := heap.memory[i].address;
      r := AllocAndCopy(i, size, align);
      if !r.Done? {
        return;
      }
      ghost var p1 := space.pages;
      OldBlockStays(t, heap.start, i, size, align);
      Kfree(ptr);
      ghost var w := heap.Live();
      assert w == MovedTable(t, heap.start, i, size, align);
      MoveKeeps(t, heap.start, i, size, align, p0, r0, p1, w, space.pages, ram);
    }

    method AllocAndCopy(i: nat, size: nat, align: nat) returns (r: Outcome)
      requires Valid() && RoomBehind(heap.Live(), heap.start, size + 8192, align)
      requires i < heap.count && heap.memory[i].length < size
      modifies this, space, space.phys`used, space.phys.bitmap, heap, heap.memory
      ensures r == MoveOutcome(old(Now()), Limits(), i, size, align)
      ensures r.Done? ==> Valid() && Now() == KmallocView(old(Now()), Limits(), size, align)
      ensures r.Done? ==> Extends(old(space.pages), space.pages)
      ensures r.Done? ==> CopyDone(old(heap.Live()), heap.start, i, size, align, space.pages, old(ram), ram)
    {
      ghost var t, v := heap.Live(), Now();
      var got, newBlock := Kmalloc(size, align);
      if !got.Enough? {
        return Ended(got, newBlock);
      }
      var fault := CopySlot(i, newBlock, t, size, align);
      WithinMeans(space.pages, Now().s.pages, newBlock, MoveSource(t, heap.start, i, size, align).length);
      return if fault then Fault else Done(newBlock);
    }

    /** memcpy into the new block from what slot i holds by then. */
    method CopySlot(i: nat, dst: nat, ghost t: seq<Entry>, ghost size: nat, ghost align: nat) returns (fault: bool)
      requires Valid() && WellPlaced(t, heap.start) && i < |t| && t[i].length < size
      requires heap.Live() == Alloc(t, heap.start, size, align)
      requires dst == NewEntry(t, heap.start, size, align).address
      modifies this`ram
      ensures fault <==> !AllPresent(space.pages, dst, MoveSource(t, heap.start, i, size, align).length)
      ensures !fault ==> CopyDone(t, heap.start, i, size, align, space.pages, old(ram), ram)
    {
      ghost var u := heap.Live();
      AllocSlot(t, heap.start, size, align, i);
      var block := heap.memory[i];
      assert block == u[i];
      BlockIsPresent(u, i, space.pages);
      MoveIsPresent(t, heap.start, i, size, align, u, space.pages);
      fault := Memcpy(dst, block.address, block.length);
    }

    /**
      Every run of operations, from any counter: it ends, and leaves table,
      map, counter and free frames, as the value model says, and the whole
      invariant holds whenever it ends well. A block that no operation is
      about keeps its entry and its bytes as long as every move spares the
      blocks it is not about.
     */
    method Run(ops: seq<HeapOp>, ghost kept: Entry) returns (r: Outcome)
      requires Valid()
      modifies this, space, space.phys`used, space.phys.bitmap, heap, heap.memory
      ensures r == RunOutcome(old(Now()), Limits(), ops)
      ensures r.Done? ==> Valid() && Now() == RunView(old(Now()), Limits(), ops)
      ensures r.Done? && kept in old(heap.Live()) && (forall k | 0 <= k < |ops| :: ops[k].Spares(kept))
              && SparingRun(old(Now()), Limits(), ops) ==>
                kept in heap.Live() && SameBytes(kept, old(space.pages), old(ram), space.pages, ram)
      decreases |ops|
    {
      ghost var t, p0, r0 := heap.Live(), space.pages, ram;
      if ops == [] {
        if kept in t { KeptAtFirst(t, kept, p0, r0); }
        return Done(0);
      }
      ghost var mine := kept in t && ops[0].Spares(kept) && OpSpares(t, heap.start, ops[0]);
      r := Step(ops[0]);
      if r.Done? {
        ghost var u, p1, r1 := heap.Live(), space.pages, ram;
        r := Run(ops[1..], kept);
        if mine { KeptByStep(t, u, ops[0].Target(), kept, p0, r0, p1, r1, space.pages, ram); }
      }
    }

    /** One operation, checked for address space first. */
    method Step(op: HeapOp) returns (r: Outcome)
      requires Valid()
      modifies this, space, space.phys`used, space.phys.bitmap, heap, heap.memory
      ensures r == OpOutcome(old(Now()), Limits(), op)
      ensures r.Done? ==> Valid() && Now() == OpView(old(Now()), Limits(), op)
      ensures r.Done? && OpSpares(old(heap.Live()), heap.start, op) ==>
                KeepsOthers(old(heap.Live()), heap.Live(), op.Target(), old(space.pages), old(ram), space.pages, ram)
    {
      if !HasRoom(heap.memory[..heap.count], heap.start, op) {
        return NoSpace;
      }
      match op
      case Malloc(size, align) =>
        var got, mem := Kmalloc(size, align);
        return Ended(got, mem);
      case Free(ptr) =>
        Kfree(ptr);
        return Done(0);
      case Realloc(ptr, size, align) =>
        r := Krealloc(ptr, size, align);
    }
  }
}
