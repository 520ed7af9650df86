/**
  What kmalloc_common, kfree and krealloc_common of kernel/src/mem/vmm.c do, on
  values: the block table, which pages and page tables are mapped, the byte
  counter and the number of free frames decide how every operation ends.
 */
module HeapView {
  import opened Bits
  import opened PhysicalMemory
  import opened HeapTable
  import opened PageMapping
  import opened PageSets
  import opened PageSpace

  // ------------------------------------------------------- the operations

  datatype View = View(t: seq<Entry>, s: Space)

  /** Heap start, slots of the block table and bytes of physical memory. */
  datatype Bounds = Bounds(start: nat, slots: nat, size: nat)

  lemma RangeMapped(s: Space, pages: PageMap, first: nat, n: nat)
    requires pages.Keys == WithPages(s, first, n).pages
    ensures MappedRange(pages, first, n)
  {
    forall p | first <= p < first + n ensures p in pages { PagesAfterHolds(s.pages, first, n, p); }
  }

  function NewAddress(v: View, b: Bounds, size: nat, align: nat): nat {
    NewEntry(v.t, b.start, size, align).address
  }

  /** kmalloc_common: a full table halts; otherwise the frames decide. */
  function KmallocGot(v: View, b: Bounds, size: nat, align: nat): Got {
    if v.t != [] && |v.t| == b.slots - 1 then Halts
    else GotPages(v.s, b.size, NewAddress(v, b, size, align) / 4096, PageCount(size))
  }

  function KmallocView(v: View, b: Bounds, size: nat, align: nat): View {
    View(Alloc(v.t, b.start, size, align), WithPages(v.s, NewAddress(v, b, size, align) / 4096, PageCount(size)))
  }

  /** The space after kfree's loop over the first n pages of e: pages without a live block are given back. */
  ghost function AfterVisits(s: Space, t: seq<Entry>, e: Entry, n: nat): Space {
    if n == 0 then s
    else
      var r, p := AfterVisits(s, t, e, n - 1), e.address / 4096 + n - 1;
      if Untouched(t, p) then WithoutPage(r, p) else r
  }

  /** Those pages. */
  ghost function Released(t: seq<Entry>, e: Entry, n: nat): set<nat> {
    if n == 0 then {}
    else
      var s, p := Released(t, e, n - 1), e.address / 4096 + n - 1;
      if Untouched(t, p) then s + {p} else s
  }

  lemma {:induction false} ReleasedHolds(t: seq<Entry>, e: Entry, n: nat, p: nat)
    ensures p in Released(t, e, n) <==> e.address / 4096 <= p < e.address / 4096 + n && Untouched(t, p)
  {
    if n > 0 { ReleasedHolds(t, e, n - 1, p); }
  }

  /** A space without some of its pages, their frames given back. */
  function Without(s: Space, gone: set<nat>): Space {
    Space(s.tables, s.pages - gone, s.used - 4096 * |gone|, s.free + |gone|)
  }

  lemma WithoutOneMore(s: Space, gone: set<nat>, p: nat)
    requires p !in gone
    ensures WithoutPage(Without(s, gone), p) == Without(s, gone + {p})
  {
    assert (s.pages - gone) - {p} == s.pages - (gone + {p});
  }

  /** Exactly they are gone, and one frame is back for each. */
  lemma {:induction false} VisitsRelease(s: Space, t: seq<Entry>, e: Entry, n: nat)
    ensures AfterVisits(s, t, e, n) == Without(s, Released(t, e, n))
  {
    if n == 0 {
      assert s.pages - {} == s.pages;
    } else {
      VisitsRelease(s, t, e, n - 1);
      var p := e.address / 4096 + n - 1;
      ReleasedHolds(t, e, n - 1, p);
      WithoutOneMore(s, Released(t, e, n - 1), p);
    }
  }

  function VisitedPages(e: Entry): nat { (e.length + 4095) / 4096 }

  /** kfree's loop after k pages of block e, from the map p0 and the space v on. */
  ghost predicate Unmapping(t: seq<Entry>, e: Entry, k: nat, p0: PageMap, v: Space, pages: PageMap, now: Space) {
    && MappedFrom(pages, e, k) && OnlyUntouchedGone(p0, pages, t)
    && now == AfterVisits(v, t, e, k)
  }

  lemma UnmappingNext(t: seq<Entry>, e: Entry, k: nat, p0: PageMap, v: Space, pages: PageMap, now: Space, p: nat)
    requires Unmapping(t, e, k, p0, v, pages, now) && p == e.address / 4096 + k
    ensures if Untouched(t, p) then Unmapping(t, e, k + 1, p0, v, pages - {p}, WithoutPage(now, p))
            else Unmapping(t, e, k + 1, p0, v, pages, now)
  {
  }

  lemma VisitLeft(e: Entry, k: nat)
    ensures 4096 * k < e.length <==> k < VisitedPages(e)
  {
  }

  ghost function KfreeView(v: View, ptr: nat): View {
    var i := IndexOf(v.t, ptr);
    if ptr == 0 || i == |v.t| then v
    else
      var t := RemoveAt(v.t, i);
      View(t, AfterVisits(v.s, t, v.t[i], VisitedPages(v.t[i])))
  }

  datatype Outcome = Done(ptr: nat) | Halted | FrameZero | Fault | NoSpace

  function Ended(got: Got, ptr: nat): Outcome {
    match got
    case Enough => Done(ptr)
    case Halts => Halted
    case NoFrame => FrameZero
  }

  /** The copy of a move runs into an unmapped page. */
  ghost predicate CopyFaults(v: View, b: Bounds, i: nat, size: nat, align: nat)
    requires i < |v.t|
  {
    var src := MoveSource(v.t, b.start, i, size, align);
    !AllWithin(KmallocView(v, b, size, align).s.pages, NewAddress(v, b, size, align), src.length)
  }

  predicate Within(pages: set<nat>, a: nat) { a / 4096 in pages }

  ghost predicate AllWithin(pages: set<nat>, from: nat, n: nat) {
    forall a | from <= a < from + n :: Within(pages, a)
  }

  lemma WithinMeans(pages: PageMap, keys: set<nat>, from: nat, n: nat)
    requires pages.Keys == keys
    ensures AllWithin(keys, from, n) <==> AllPresent(pages, from, n)
  {
    assert forall a: nat :: Within(keys, a) <==> Present(pages, a);
  }

  ghost function MoveOutcome(v: View, b: Bounds, i: nat, size: nat, align: nat): Outcome
    requires i < |v.t|
  {
    var got := KmallocGot(v, b, size, align);
    if got == Enough && CopyFaults(v, b, i, size, align) then Fault
    else Ended(got, NewAddress(v, b, size, align))
  }

  /** krealloc_common */
  ghost function KreallocOutcome(v: View, b: Bounds, ptr: nat, size: nat, align: nat): Outcome {
    var i := IndexOf(v.t, ptr);
    if ptr == 0 || i == |v.t| then Done(0)
    else if Moves(v.t, i, size) then MoveOutcome(v, b, i, size, align)
    else if v.t[i].length < size then Ended(GotPages(v.s, b.size, ptr / 4096, PageCount(size)), ptr)
    else Done(ptr)
  }

  ghost function KreallocView(v: View, b: Bounds, ptr: nat, size: nat, align: nat): View {
    var i := IndexOf(v.t, ptr);
    if ptr == 0 || i == |v.t| then v
    else if Moves(v.t, i, size) then KfreeView(KmallocView(v, b, size, align), ptr)
    else
      View(Resized(v.t, i, size), if v.t[i].length < size then WithPages(v.s, ptr / 4096, PageCount(size)) else v.s)
  }

  lemma MovingBlock(v: View, b: Bounds, ptr: nat, i: nat, size: nat, align: nat)
    requires ptr != 0 && i == IndexOf(v.t, ptr) && i < |v.t| && Moves(v.t, i, size)
    ensures KreallocOutcome(v, b, ptr, size, align) == MoveOutcome(v, b, i, size, align)
    ensures KreallocView(v, b, ptr, size, align) == KfreeView(KmallocView(v, b, size, align), v.t[i].address)
  {
  }

  /** What a reallocation that returns has done to the table, without the model's own table functions. */
  lemma ReallocEnds(v: View, b: Bounds, ptr: nat, size: nat, align: nat, r: Outcome, u: seq<Entry>)
    requires WellPlaced(v.t, b.start) && ptr != 0 && IndexOf(v.t, ptr) < |v.t|
    requires r.Done? && r == KreallocOutcome(v, b, ptr, size, align) && u == KreallocView(v, b, ptr, size, align).t
    ensures var i := IndexOf(v.t, ptr);
            && Reallocated(v.t, u, i, r.ptr, size)
            && (r.ptr == ptr <== i + 1 == |v.t| || size <= v.t[i].length || ptr + size < v.t[i + 1].address)
  {
    ReallocHolds(v.t, b.start, ptr, size, align);
    var i := IndexOf(v.t, ptr);
    assert v.t[i].address == ptr;
    assert u == ReallocTable(v.t, b.start, ptr, size, align);
  }

  // ------------------------------------------------------- runs

  datatype HeapOp = Malloc(size: nat, align: nat) | Free(ptr: nat) | Realloc(ptr: nat, size: nat, align: nat) {
    /** The address the operation is about; kmalloc_common is about none. */
    function Target(): nat {
      if Malloc? then 0 else ptr
    }

    predicate Spares(e: Entry) {
      Target() != e.address
    }
  }

  /** Address space above the last block for the new block and the page the loops run past it. */
  predicate HasRoom(t: seq<Entry>, start: nat, op: HeapOp) {
    op.Free? || RoomBehind(t, start, op.size + 8192, op.align)
  }

  ghost function OpOutcome(v: View, b: Bounds, op: HeapOp): Outcome {
    if !HasRoom(v.t, b.start, op) then NoSpace
    else
      match op
      case Malloc(size, align) => Ended(KmallocGot(v, b, size, align), NewAddress(v, b, size, align))
      case Free(ptr) => Done(0)
      case Realloc(ptr, size, align) => KreallocOutcome(v, b, ptr, size, align)
  }

  ghost function OpView(v: View, b: Bounds, op: HeapOp): View {
    match op
    case Malloc(size, align) => KmallocView(v, b, size, align)
    case Free(ptr) => KfreeView(v, ptr)
    case Realloc(ptr, size, align) => KreallocView(v, b, ptr, size, align)
  }

  predicate OpSpares(t: seq<Entry>, start: nat, op: HeapOp) {
    op.Realloc? ==> SparesOthers(t, start, op.ptr, op.size, op.align)
  }

  /** How a run ends: as its first operation that does not return, or well. */
  ghost function RunOutcome(v: View, b: Bounds, ops: seq<HeapOp>): Outcome
    decreases |ops|
  {
    if ops == [] then Done(0)
    else
      var r := OpOutcome(v, b, ops[0]);
      if r.Done? then RunOutcome(OpView(v, b, ops[0]), b, ops[1..]) else r
  }

  ghost function RunView(v: View, b: Bounds, ops: seq<HeapOp>): View
    decreases |ops|
  {
    if ops == [] then v else RunView(OpView(v, b, ops[0]), b, ops[1..])
  }

  /** Every reallocation of the run spares the other blocks of its own table. */
  ghost predicate SparingRun(v: View, b: Bounds, ops: seq<HeapOp>)
    decreases |ops|
  {
    ops == [] || (OpSpares(v.t, b.start, ops[0]) && SparingRun(OpView(v, b, ops[0]), b, ops[1..]))
  }

  /** The block tables of a run are those of first fit, removal and reallocation alone. */
  function OpTable(t: seq<Entry>, start: nat, op: HeapOp): seq<Entry> {
    match op
    case Malloc(size, align) => Alloc(t, start, size, align)
    case Free(ptr) =>
      var i := IndexOf(t, ptr);
      if ptr == 0 || i == |t| then t else RemoveAt(t, i)
    case Realloc(ptr, size, align) => ReallocTable(t, start, ptr, size, align)
  }

  function RunTable(t: seq<Entry>, start: nat, ops: seq<HeapOp>): seq<Entry>
    decreases |ops|
  {
    if ops == [] then t else RunTable(OpTable(t, start, ops[0]), start, ops[1..])
  }

  lemma OpViewTable(v: View, b: Bounds, op: HeapOp)
    ensures OpView(v, b, op).t == OpTable(v.t, b.start, op)
  {
    if op.Realloc? {
      var i := IndexOf(v.t, op.ptr);
      if i < |v.t| { assert v.t[i].address == op.ptr; }
    }
  }

  lemma {:induction false} RunViewTable(v: View, b: Bounds, ops: seq<HeapOp>)
    ensures RunView(v, b, ops).t == RunTable(v.t, b.start, ops)
    decreases |ops|
  {
    if ops != [] {
      OpViewTable(v, b, ops[0]);
      RunViewTable(OpView(v, b, ops[0]), b, ops[1..]);
    }
  }

  // ------------------------------------------------------- laws of runs

  lemma {:induction false} VisitsKeepSum(s: Space, t: seq<Entry>, e: Entry, n: nat)
    ensures Sum(AfterVisits(s, t, e, n)) == Sum(s)
  {
    if n > 0 { VisitsKeepSum(s, t, e, n - 1); }
  }

  lemma FreeKeepsSum(v: View, ptr: nat)
    ensures Sum(KfreeView(v, ptr).s) == Sum(v.s)
  {
    var i := IndexOf(v.t, ptr);
    if i < |v.t| { VisitsKeepSum(v.s, RemoveAt(v.t, i), v.t[i], VisitedPages(v.t[i])); }
  }

  lemma OpKeepsSum(v: View, b: Bounds, op: HeapOp)
    ensures Sum(OpView(v, b, op).s) == Sum(v.s)
  {
    match op {
      case Malloc(size, align) =>
      case Free(ptr) => FreeKeepsSum(v, ptr);
      case Realloc(ptr, size, align) => FreeKeepsSum(KmallocView(v, b, size, align), ptr);
    }
  }

  /** Conservation over every run. */
  lemma {:induction false} RunKeepsSum(v: View, b: Bounds, ops: seq<HeapOp>)
    ensures Sum(RunView(v, b, ops).s) == Sum(v.s)
    decreases |ops|
  {
    if ops != [] {
      OpKeepsSum(v, b, ops[0]);
      RunKeepsSum(OpView(v, b, ops[0]), b, ops[1..]);
    }
  }

  lemma OpNeverZero(v: View, b: Bounds, op: HeapOp)
    requires Sum(v.s) >= b.size
    ensures OpOutcome(v, b, op) != FrameZero
  {
    if !op.Free? {
      var a, n := NewAddress(v, b, op.size, op.align) / 4096, PageCount(op.size);
      VerdictWithSum(v.s.used, v.s.free, b.size, Need(v.s.tables, v.s.pages, a, n));
      if op.Realloc? { VerdictWithSum(v.s.used, v.s.free, b.size, Need(v.s.tables, v.s.pages, op.ptr / 4096, n)); }
    }
  }

  /** With every marked frame counted, no run ever gets frame 0. */
  lemma {:induction false} RunNeverZero(v: View, b: Bounds, ops: seq<HeapOp>)
    requires Sum(v.s) >= b.size
    ensures RunOutcome(v, b, ops) != FrameZero
    decreases |ops|
  {
    if ops != [] {
      OpNeverZero(v, b, ops[0]);
      OpKeepsSum(v, b, ops[0]);
      RunNeverZero(OpView(v, b, ops[0]), b, ops[1..]);
    }
  }

  /** How long a block has to be to need more frames than there are. */
  function TooLong(v: View): nat { 4096 * ((if v.s.free > 0 then v.s.free else 0) + |v.s.pages|) }

  lemma TooLongFails(v: View, b: Bounds, align: nat)
    requires v.s.free >= 0 && (v.t == [] || |v.t| != b.slots - 1) && Sum(v.s) < b.size
    ensures KmallocGot(v, b, TooLong(v), align) == NoFrame
  {
    var size := TooLong(v);
    var first, n := NewAddress(v, b, size, align) / 4096, PageCount(size);
    NeedAtLeast(v.s.tables, v.s.pages, first, n);
    VerdictExactly(v.s.used, v.s.free, b.size, Need(v.s.tables, v.s.pages, first, n));
  }

  /** Some block gets frame 0, address room permitting, exactly if counted bytes and free frames fall short. */
  lemma ZeroPossible(v: View, b: Bounds, align: nat)
    requires v.s.free >= 0 && (v.t == [] || |v.t| != b.slots - 1)
    ensures (exists size: nat :: KmallocGot(v, b, size, align) == NoFrame) <==> Sum(v.s) < b.size
  {
    if Sum(v.s) < b.size {
      TooLongFails(v, b, align);
    } else {
      forall size: nat
        ensures KmallocGot(v, b, size, align) != NoFrame
      {
        var first := NewAddress(v, b, size, align) / 4096;
        VerdictWithSum(v.s.used, v.s.free, b.size, Need(v.s.tables, v.s.pages, first, PageCount(size)));
      }
    }
  }

  /** What that means for the bitmap: at most the memory behind the end of the bitmap is missing. */
  lemma SumOfBitmap(bm: seq<Byte>, used: int, size: nat, reserved: int)
    requires Accounted(bm, used, reserved)
    ensures used + 4096 * FreeLeft(bm) == 4096 * (8 * |bm|) - reserved
    ensures reserved <= 0 && Covers(bm, size) ==> used + 4096 * FreeLeft(bm) >= size
  {
  }

  /** The next frame is frame 0 exactly below the limit when counted and reserved bytes fill the bitmap. */
  lemma NextIsZero(bm: seq<Byte>, used: int, size: nat, reserved: int)
    requires Accounted(bm, used, reserved)
    ensures Verdict(used, FreeLeft(bm), size, 1) == NoFrame <==> used < size && used + reserved == 4096 * (8 * |bm|)
  {
    VerdictExactly(used, FreeLeft(bm), size, 1);
  }

  /** Otherwise some request does: the smallest state in which kmalloc gets frame 0. */
  lemma FrameZeroHappens(v: View, b: Bounds, size: nat, align: nat)
    requires v.t == [] && b.slots >= 2 && v.s.free == 0 && v.s.used < b.size
    requires b.start / 4096 !in v.s.pages
    ensures KmallocGot(v, b, size, align) == NoFrame
  {
    var v0 := b.start / 4096;
    NeedGrows(v.s.tables, v.s.pages, v0, 1, PageCount(size));
    assert Need(v.s.tables, v.s.pages, v0, 1) == NeedOne(v.s.tables, v.s.pages, v0);
  }

  /** A safe move never faults: its copy stays within the new block. */
  lemma SafeMoveNeverFaults(v: View, b: Bounds, i: nat, size: nat, align: nat)
    requires WellPlaced(v.t, b.start) && i < |v.t| && v.t[i].length < size && LandsAfter(v.t, i, size, align)
    ensures !CopyFaults(v, b, i, size, align)
  {
    AllocSlot(v.t, b.start, size, align, i);
    var dst := NewAddress(v, b, size, align);
    forall a | dst <= a < dst + v.t[i].length
      ensures Within(KmallocView(v, b, size, align).s.pages, a)
    {
      BytesAreTouched(Entry(dst, size), a);
      LoopCoversBlock(Entry(dst, size), a / 4096);
      PagesAfterHolds(v.s.pages, dst / 4096, PageCount(size), a / 4096);
    }
  }

  // ------------------------------------------------------- a block and its end

  /** The new block is the first at its address, so kfree finds it. */
  lemma NewIsFound(t: seq<Entry>, start: nat, size: nat, align: nat)
    requires var a := NewEntry(t, start, size, align).address; IndexOf(t, a) == |t|
    ensures var u, n := Alloc(t, start, size, align), NewIndex(t, size, align);
            IndexOf(u, NewEntry(t, start, size, align).address) == n && n < |u|
  {
    var u, n := Alloc(t, start, size, align), NewIndex(t, size, align);
    var e := NewEntry(t, start, size, align);
    AllocSlot(t, start, size, align, n);
    forall k | 0 <= k < n
      ensures u[k].address != e.address
    {
      AllocSlot(t, start, size, align, k);
    }
  }

  /**
    kmalloc_common and kfree of the block give the table back. Of the pages,
    the one behind the visited ones stays mapped, and those visited are gone
    unless another block touches them.
   */
  lemma MallocThenFree(v: View, b: Bounds, size: nat, align: nat, p: nat)
    requires IndexOf(v.t, NewAddress(v, b, size, align)) == |v.t| && NewAddress(v, b, size, align) > 0
    requires forall q: nat | !Untouched(v.t, q) :: q in v.s.pages
    ensures var a := NewAddress(v, b, size, align);
            var w := KfreeView(KmallocView(v, b, size, align), a);
            var first, n := a / 4096, (size + 4095) / 4096;
            && w.t == v.t
            && (p in w.s.pages <==>
                  p == first + n || (p in v.s.pages && !(first <= p < first + n && Untouched(v.t, p))))
  {
    var a, u := NewAddress(v, b, size, align), KmallocView(v, b, size, align);
    var e, first, n := NewEntry(v.t, b.start, size, align), a / 4096, (size + 4095) / 4096;
    NewIsFound(v.t, b.start, size, align);
    FreeUndoesAlloc(v.t, b.start, size, align);
    AllocSlot(v.t, b.start, size, align, NewIndex(v.t, size, align));
    VisitsRelease(u.s, v.t, e, n);
    ReleasedHolds(v.t, e, n, p);
    PagesAfterHolds(v.s.pages, first, n + 1, p);
  }

  // ------------------------------------------------------- a copy that faults

  /** It happens: the copy of a long block into the place of a short one runs into an unmapped page. */
  lemma MoveCanFault(v: View, b: Bounds)
    requires v.t == [Entry(0x1000, 16), Entry(0x10_0000, 0x5000), Entry(0x10_5000, 16), Entry(0x10_5010, 16)]
    requires b.start == 0x1000 && b.slots >= 6 && 1 in v.s.pages && 2 in v.s.pages && 3 !in v.s.pages
    ensures KreallocOutcome(v, b, 0x10_5000, 64, 1) == Fault
  {
    var t := v.t;
    AlignOfOne(0x1010);
    assert FitsBehind(t, 0, 64, 1);
    assert FirstFit(t, 0, 64, 1) == 0 && NewIndex(t, 64, 1) == 1;
    AllocSlot(t, 0x1000, 64, 1, 2);
    assert MoveSource(t, 0x1000, 2, 64, 1) == t[1];
    FoundThird(t);
    NothingNeeded(v.s.tables, v.s.pages, 1);
    PagesAfterHolds(v.s.pages, 1, 2, 3);
    assert !Within(KmallocView(v, b, 64, 1).s.pages, 0x3000);
  }

  lemma FoundThird(t: seq<Entry>)
    requires |t| == 4 && t[0].address == 0x1000 && t[1].address == 0x10_0000 && t[2].address == 0x10_5000
    ensures IndexOf(t, 0x10_5000) == 2
  {
  }

  lemma NothingNeeded(tables: set<nat>, pages: set<nat>, first: nat)
    requires first in pages && first + 1 in pages
    ensures Need(tables, pages, first, 2) == 0
  {
    assert Need(tables, pages, first, 1) == 0;
  }
}
