/** The block table of kernel/src/mem/vmm.c in its array, changed slot by slot. */
module HeapArray {
  import opened Bits
  import opened HeapTable

  class Heap {
    const memory: array<Entry>
    const start: nat
    var count: nat
    var used: nat
    var totalRun: nat
    var peak: nat

    ghost predicate Valid()
      reads this, memory
    {
      && start > 0 && start % 4096 == 0
      && count < memory.Length && memory.Length >= 2
      && WellPlaced(memory[..count], start)
      && (forall i | count <= i < memory.Length :: memory[i] == FREE_SLOT)
      && used == TotalLength(memory[..count])
    }

    ghost function Live(): seq<Entry>
      requires Valid()
      reads this, memory
    {
      memory[..count]
    }

    /** The zeroed table of vmm_init. */
    constructor (heapStart: nat, capacity: nat)
      requires heapStart > 0 && heapStart % 4096 == 0 && capacity >= 2
      ensures Valid() && fresh(memory) && Live() == []
      ensures start == heapStart && memory.Length == capacity
    {
      start, count, used, totalRun, peak := heapStart, 0, 0, 0, 0;
      memory := new Entry[capacity](_ => FREE_SLOT);
      new;
      assert memory[..count] == [];
    }

    /** The search loop of alloc_no_map on a nonempty table; it never falls through. */
    method FindGap(size: nat, align: nat) returns (i: nat, address: nat)
      requires Valid() && count > 0
      ensures i == FirstFit(Live(), 0, size, align)
      ensures address == Behind(Live()[i], align)
    {
      ghost var t := Live();
      i := 0;
      while i < count
        invariant i < count
        invariant FirstFit(t, 0, size, align) == FirstFit(t, i, size, align)
      {
        var cur, next := memory[i], memory[i + 1];
        address := cur.End();
        if align != 0 {
          address := Align(address, align);
        }
        assert next.address == 0 <==> i + 1 == count;
        if next.address == 0 || address + size <= next.address {
          return;
        }
        i := i + 1;
      }
    }

    /** The loop that moves the entries from i on up by one slot. */
    method ShiftUp(i: nat)
      requires i <= count < memory.Length
      modifies memory
      ensures forall k | 0 <= k <= i :: memory[k] == old(memory[k])
      ensures forall k | i < k <= count :: memory[k] == old(memory[k - 1])
      ensures forall k | count < k < memory.Length :: memory[k] == old(memory[k])
    {
      var j := count;
      while j > i
        invariant i <= j <= count
        invariant forall k | 0 <= k <= j :: memory[k] == old(memory[k])
        invariant forall k | j < k <= count :: memory[k] == old(memory[k - 1])
        invariant forall k | count < k < memory.Length :: memory[k] == old(memory[k])
      {
        memory[j] := memory[j - 1];
        j := j - 1;
      }
    }

    /** The tail of alloc_no_map: the chosen slot is freed and filled. */
    method InsertBehind(i: nat, curend: nat, size: nat)
      requires i < count < memory.Length && curend + size < LIMIT
      requires memory[i + 1].address == 0 <==> i + 1 == count
      modifies memory
      ensures memory[..count + 1] == InsertAt(old(memory[..count]), i + 1, Entry(curend, size))
      ensures forall k | count < k < memory.Length :: memory[k] == old(memory[k])
    {
      var bestIndex, bestAddress := 0, 0;
      if memory[i + 1].address == 0 {
        bestAddress, bestIndex := curend, i + 1;
      } else {
        ShiftUp(i);
        if curend + size < LIMIT {
          bestAddress, bestIndex := curend, i + 1;
        }
      }
      memory[bestIndex] := Entry(bestAddress, size);
    }

    /** Picks the slot and the address of the new block and writes its entry. */
    method Fill(size: nat, align: nat) returns (mem: nat)
      requires Valid() && RoomBehind(Live(), start, size, align)
      modifies memory
      ensures memory[..count + 1] == Alloc(old(memory[..count]), start, size, align)
      ensures forall k | count < k < memory.Length :: memory[k] == FREE_SLOT
      ensures mem == NewEntry(old(memory[..count]), start, size, align).address
    {
      if count == 0 {
        mem := start;
        memory[0] := Entry(start, size);
      } else {
        NewEntryBelowLimit(Live(), start, size, align);
        var i, curend := FindGap(size, align);
        InsertBehind(i, curend, size);
        mem := curend;
      }
    }

    /** alloc_no_map; `halted` is the endless loop on a full table. */
    method AllocNoMap(size: nat, align: nat) returns (halted: bool, mem: nat)
      requires Valid() && RoomBehind(Live(), start, size, align)
      modifies this, memory
      ensures Valid()
      ensures halted <==> old(count) > 0 && old(count) == memory.Length - 1
      ensures halted ==> Live() == old(Live()) && used == old(used)
      ensures !halted ==> && Live() == Alloc(old(Live()), start, size, align)
                          && mem == NewEntry(old(Live()), start, size, align).address
                          && used == old(used) + size
    {
      if count > 0 && count == memory.Length - 1 {
        return true, 0;
      }
      AllocFacts(Live(), start, size, align);
      mem := Fill(size, align);
      Account(size);
      halted := false;
    }

    /** The counters at the end of alloc_no_map. */
    method Account(size: nat)
      modifies this`count, this`used, this`totalRun, this`peak
      ensures count == old(count) + 1 && used == old(used) + size
    {
      count := count + 1;
      used := used + size;
      totalRun := totalRun + size;
      peak := if used > peak then used else peak;
    }

    /** heap_get_block_idx; the entry count stands for 0xFFFFFFFF. */
    method GetBlockIndex(address: nat) returns (i: nat)
      requires Valid()
      ensures i == IndexOf(Live(), address)
    {
      i := 0;
      while i < count
        invariant i <= count
        invariant forall k | 0 <= k < i :: memory[k].address != address
      {
        if memory[i].address == address {
          return;
        }
        i := i + 1;
      }
    }

    /** The loop that moves the entries behind slot i down by one slot. */
    method ShiftDown(i: nat)
      requires i < count <= memory.Length
      modifies memory
      ensures forall k | 0 <= k < i :: memory[k] == old(memory[k])
      ensures forall k | i <= k < count - 1 :: memory[k] == old(memory[k + 1])
      ensures forall k | count - 1 <= k < memory.Length :: memory[k] == old(memory[k])
    {
      var k := i;
      while k < count - 1
        invariant i <= k <= count - 1
        invariant forall m | 0 <= m < i :: memory[m] == old(memory[m])
        invariant forall m | i <= m < k :: memory[m] == old(memory[m + 1])
        invariant forall m | k <= m < memory.Length :: memory[m] == old(memory[m])
      {
        memory[k] := memory[k + 1];
        k := k + 1;
      }
    }

    /** Closes the hole at slot i and clears the last slot. */
    method CloseHole(i: nat)
      requires i < count <= memory.Length
      requires forall k | count <= k < memory.Length :: memory[k] == FREE_SLOT
      modifies memory
      ensures memory[..count - 1] == RemoveAt(old(memory[..count]), i)
      ensures forall k | count - 1 <= k < memory.Length :: memory[k] == FREE_SLOT
    {
      ghost var t := memory[..count];
      ShiftDown(i);
      memory[count - 1] := FREE_SLOT;
      ghost var u := RemoveAt(t, i);
      forall k | 0 <= k < count - 1
        ensures memory[k] == u[k]
      {
        assert u[k] == t[if k < i then k else k + 1];
      }
    }

    /** free_no_map. */
    method FreeNoMap(ptr: nat)
      requires Valid()
      modifies this, memory
      ensures Valid()
      ensures var t := old(Live());
              var i := IndexOf(t, ptr);
              Live() == if ptr == 0 || i == |t| then t else RemoveAt(t, i)
    {
      if ptr == 0 {
        return;
      }
      var i := GetBlockIndex(ptr);
      if i == count {
        return;
      }
      RemoveEntry(i);
    }

    method RemoveEntry(i: nat)
      requires Valid() && i < count
      modifies this, memory
      ensures Valid() && Live() == RemoveAt(old(Live()), i)
    {
      ghost var u := RemoveAt(Live(), i);
      RemoveFacts(Live(), start, i);
      var length := memory[i].length;
      CloseHole(i);
      assert memory[..count - 1] == u;
      used := used - length;
      count := count - 1;
    }

    /** The in-place length update of krealloc_common, with its accounting. */
    method Resize(i: nat, length: nat)
      requires Valid() && i < count
      requires i + 1 < count ==> memory[i].address + length <= memory[i + 1].address
      modifies this`used, memory
      ensures Valid()
      ensures Live() == old(Live())[i := old(Live())[i].(length := length)]
    {
      ghost var t := Live();
      ResizeWellPlaced(t, start, i, length);
      TotalOfResize(t, i, length);
      used := used + length - memory[i].length;
      memory[i] := memory[i].(length := length);
      assert memory[..count] == t[i := t[i].(length := length)];
    }

    /** vmm_is_page_used_by_entries. */
    method IsPageUsedByEntries(address: nat) returns (r: bool)
      requires Valid()
      ensures r <==> !Untouched(Live(), address / 4096)
    {
      var i := 0;
      ghost var t := Live();
      while i < count
        invariant i <= count
        invariant Untouched(t[..i], address / 4096)
      {
        var used := CoversAddress(memory[i], address);
        assert t[i] == memory[i] && t[..i + 1] == t[..i] + [t[i]];
        if used {
          return true;
        }
        i := i + 1;
      }
      assert t[..i] == t;
      return false;
    }

    /** The test of the loop: an address within the pages of a block. */
    static method CoversAddress(e: Entry, address: nat) returns (r: bool)
      ensures r <==> Touches(e, address / 4096)
    {
      var first := e.address - e.address % 4096;
      var end := Align(e.End(), 4096);
      PageRange(e, address);
      return first <= address < end;
    }
  }
}
