/**
  The two-level page map of kernel/src/arch/x86/mem/paging.c as the heap of
  kernel/src/mem/vmm.c uses it, and the bytes behind it.

  `tables` maps a page-directory index to the frame of its page table and
  `pages` a virtual heap page to its frame, both as frame numbers. The bytes
  live in physical memory and are reached through `pages` only.
 */
module PageMapping {
  import opened Bits
  import opened PhysicalMemory
  import opened HeapTable

  type PageMap = map<nat, nat>

  // ------------------------------------------------------- the page map as a value

  /** A frame the heap may own: inside the bitmap, not frame 0, and marked used. */
  predicate Owned(bm: seq<Byte>, f: nat) {
    0 < f < 8 * |bm| && PageUsed(bm, f)
  }

  /** Names the pages and page tables that the laws of the page map are looked up for. */
  predicate Look(v: nat) { true }

  ghost predicate Injective(m: PageMap) {
    forall v: nat, w: nat {:trigger Look(v), Look(w)} | Look(v) && Look(w) && v in m && w in m && m[v] == m[w] :: v == w
  }

  /** Distinct heap pages and page tables have distinct frames, all marked used. */
  ghost predicate Mapping(tables: PageMap, pages: PageMap, bm: seq<Byte>) {
    && Injective(pages) && Injective(tables)
    && (forall v: nat, d: nat {:trigger Look(v), Look(d)} |
          Look(v) && Look(d) && v in pages && d in tables :: pages[v] != tables[d])
    && (forall v: nat {:trigger Look(v)} | Look(v) && v in pages :: Owned(bm, pages[v]) && v / 1024 in tables)
    && (forall d: nat {:trigger Look(d)} | Look(d) && d in tables :: Owned(bm, tables[d]))
  }

  /** Every page a live block reaches into is mapped. */
  ghost predicate Backed(t: seq<Entry>, pages: PageMap) {
    forall i, p {:trigger Touches(t[i], p)} | 0 <= i < |t| && Touches(t[i], p) :: p in pages
  }

  /** Frame 0 is taken, as init_pmm leaves it, and the page map is in order. */
  ghost predicate Sound(tables: PageMap, pages: PageMap, bm: seq<Byte>) {
    |bm| > 0 && PageUsed(bm, 0) && Mapping(tables, pages, bm)
  }

  /** Frame f backs nothing yet. */
  ghost predicate Unbound(tables: PageMap, pages: PageMap, f: nat) {
    (forall v | v in pages :: pages[v] != f) && (forall d | d in tables :: tables[d] != f)
  }

  /** The frames of `bm` that may be owned are still so in `bm'`. */
  ghost predicate KeepsOwned(bm: seq<Byte>, bm': seq<Byte>) {
    forall f | Owned(bm, f) :: Owned(bm', f)
  }

  lemma TakeFrame(tables: PageMap, pages: PageMap, bm: seq<Byte>)
    requires Sound(tables, pages, bm) && FirstFree(bm, 0) < 8 * |bm|
    ensures var f := FirstFree(bm, 0);
            && 0 < f && FreeLeft(SetPage(bm, f)) == FreeLeft(bm) - 1
            && Sound(tables, pages, SetPage(bm, f))
            && Owned(SetPage(bm, f), f) && Unbound(tables, pages, f)
            && KeepsOwned(bm, SetPage(bm, f))
  {
    var f := FirstFree(bm, 0);
    CountAfterSet(bm, f, 8 * |bm|);
    forall q | 0 <= q < 8 * |bm| { SetPageView(bm, f, q); }
    MappingGrows(tables, pages, bm, SetPage(bm, f));
    UnusedIsUnbound(tables, pages, bm, f);
  }

  lemma MappingGrows(tables: PageMap, pages: PageMap, bm: seq<Byte>, bm': seq<Byte>)
    requires Mapping(tables, pages, bm) && KeepsOwned(bm, bm')
    ensures Mapping(tables, pages, bm')
  {
  }

  lemma UnusedIsUnbound(tables: PageMap, pages: PageMap, bm: seq<Byte>, f: nat)
    requires Mapping(tables, pages, bm) && !Owned(bm, f)
    ensures Unbound(tables, pages, f)
  {
    forall v | v in pages ensures pages[v] != f { assert Look(v); }
    forall d | d in tables ensures tables[d] != f { assert Look(d); }
  }

  lemma AddTable(tables: PageMap, pages: PageMap, bm: seq<Byte>, d: nat, f: nat)
    requires Mapping(tables, pages, bm) && Owned(bm, f)
    requires Unbound(tables, pages, f) && d !in tables
    ensures Mapping(tables[d := f], pages, bm)
  {
  }

  lemma AddPage(tables: PageMap, pages: PageMap, bm: seq<Byte>, v: nat, f: nat)
    requires Mapping(tables, pages, bm) && Owned(bm, f)
    requires Unbound(tables, pages, f) && v !in pages && v / 1024 in tables
    ensures Mapping(tables, pages[v := f], bm)
  {
  }

  lemma KeysAfterAdd(m: PageMap, k: nat, f: nat)
    ensures m[k := f].Keys == m.Keys + {k} && (k !in m ==> Extends(m, m[k := f]))
  {
  }

  lemma KeysAfterDrop(m: PageMap, gone: set<nat>)
    ensures (m - gone).Keys == m.Keys - gone
  {
  }

  lemma FrameAddress(f: nat, n: nat)
    requires f < 8 * n
    ensures (4096 * f) / 4096 == f && (4096 * f) / (4096 * 8) < n
  {
  }

  lemma DropPage(tables: PageMap, pages: PageMap, bm: seq<Byte>, v: nat)
    requires Sound(tables, pages, bm) && v in pages
    ensures Owned(bm, pages[v])
    ensures Sound(tables, pages - {v}, ClearPage(bm, pages[v]))
    ensures FreeLeft(ClearPage(bm, pages[v])) == FreeLeft(bm) + 1
  {
    var f := pages[v];
    assert Look(v);
    CountAfterClear(bm, f, 8 * |bm|);
    forall q | 0 <= q < 8 * |bm| { ClearPageView(bm, f, q); }
  }

  /** The frame number that phys_alloc_single_page answers below the limit. */
  function FrameAnswered(bm: seq<Byte>): nat {
    var f := FirstFree(bm, 0);
    if f == 8 * |bm| then 0 else f
  }

  /**
    vmm.c does not look at the answer: on a bitmap without a free page, two
    pages mapped one after the other share frame 0, counter below the limit or
    not.
   */
  lemma FrameZeroShared(pages: PageMap, bm: seq<Byte>, v: nat, w: nat)
    requires FreeLeft(bm) == 0 && v != w
    ensures FrameAnswered(bm) == 0
    ensures !Injective(pages[v := FrameAnswered(bm)][w := FrameAnswered(bm)])
  {
    NoneLeft(bm);
    var m := pages[v := 0][w := 0];
    assert Look(v) && Look(w) && m[v] == m[w];
  }

  /** Frames come one by one: the next one is the neighbour exactly if the neighbour is free. */
  lemma NextFrame(bm: seq<Byte>, f: nat)
    requires f == FirstFree(bm, 0) && f < 8 * |bm|
    ensures FirstFree(SetPage(bm, f), 0) == f + 1 <==> f + 1 == 8 * |bm| || !PageUsed(bm, f + 1)
  {
    var b := SetPage(bm, f);
    forall q | 0 <= q < 8 * |bm| ensures PageUsed(b, q) <==> q == f || PageUsed(bm, q) { SetPageView(bm, f, q); }
  }

  // ------------------------------------------------------- bytes behind the map

  type Ram = nat -> Byte

  predicate Present(pages: PageMap, a: nat) {
    a / 4096 in pages
  }

  /** The byte at a virtual address; unmapped addresses have none and read as 0. */
  function Load(pages: PageMap, ram: Ram, a: nat): Byte {
    if Present(pages, a) then ram(4096 * pages[a / 4096] + a % 4096) else 0
  }

  ghost predicate AllPresent(pages: PageMap, from: nat, n: nat) {
    forall a | from <= a < from + n :: Present(pages, a)
  }

  /** Distinct virtual addresses never share a byte. */
  lemma NoAlias(pages: PageMap, a: nat, b: nat)
    requires Injective(pages) && Present(pages, a) && Present(pages, b) && a != b
    ensures 4096 * pages[a / 4096] + a % 4096 != 4096 * pages[b / 4096] + b % 4096
  {
    assert Look(a / 4096) && Look(b / 4096);
    var f, g := pages[a / 4096], pages[b / 4096];
    if f != g {
      assert f < g || g < f;
    }
  }

  /** Memory after a byte is stored through the map. */
  function Poked(pages: PageMap, ram: Ram, a: nat, b: Byte): Ram
    requires Present(pages, a)
  {
    var x := 4096 * pages[a / 4096] + a % 4096;
    (y: nat) => if y == x then b else ram(y)
  }

  /** That changes this virtual byte and no other. */
  lemma PokedByte(pages: PageMap, ram: Ram, a: nat, b: Byte, c: nat)
    requires Injective(pages) && Present(pages, a)
    ensures Load(pages, Poked(pages, ram, a, b), c) == if c == a then b else Load(pages, ram, c)
  {
    if c != a && Present(pages, c) { NoAlias(pages, a, c); }
  }

  /** The pages in `old` keep their frames in `new`. */
  ghost predicate Extends(old_: PageMap, new_: PageMap) {
    forall v {:trigger v in new_} {:trigger new_[v]} | v in old_ :: v in new_ && new_[v] == old_[v]
  }

  /** From `old_` to `new_` only pages without a live block went away. */
  ghost predicate OnlyUntouchedGone(old_: PageMap, new_: PageMap, t: seq<Entry>) {
    && Extends(new_, old_)
    && forall v | v in old_ && v !in new_ :: Untouched(t, v)
  }

  /** The pages of block e from its k-th on are mapped. */
  ghost predicate MappedFrom(pages: PageMap, e: Entry, k: nat) {
    forall p {:trigger Touches(e, p)} | Touches(e, p) && e.address / 4096 + k <= p :: p in pages
  }

  /** The bytes of e read the same through both maps and memories. */
  ghost predicate SameBytes(e: Entry, p: PageMap, r: Ram, p': PageMap, r': Ram) {
    forall a {:trigger Load(p', r', a)} {:trigger Present(p', a)} | e.address <= a < e.End() ::
      Present(p, a) && Present(p', a) && Load(p', r', a) == Load(p, r, a)
  }

  // ------------------------------------------------------- krealloc's move path

  /** The new block goes behind block i, so block i keeps its slot. */
  predicate LandsAfter(t: seq<Entry>, i: nat, size: nat, align: nat) {
    i < NewIndex(t, size, align)
  }

  /** A caller can tell in advance: no gap before block i takes the new size. */
  lemma LandsAfterMeans(t: seq<Entry>, i: nat, size: nat, align: nat)
    requires i < |t|
    ensures LandsAfter(t, i, size, align)
            <==> forall k | 0 <= k < i :: !FitsBehind(t, k, size, align)
  {
    var n := FirstFit(t, 0, size, align);
    if n < i { assert FitsBehind(t, n, size, align); }
  }

  /** The entry that slot i holds once the new block is in the table. */
  function MoveSource(t: seq<Entry>, start: nat, i: nat, size: nat, align: nat): Entry
    requires i < |t|
  {
    Alloc(t, start, size, align)[i]
  }

  /** memcpy takes its source from the old block exactly when the new one lands after it. */
  lemma MoveSourceIsOldBlock(t: seq<Entry>, start: nat, i: nat, size: nat, align: nat)
    requires WellPlaced(t, start) && i < |t| && 0 < t[i].length < size
    ensures MoveSource(t, start, i, size, align) == t[i] <==> LandsAfter(t, i, size, align)
  {
    AllocSlot(t, start, size, align, i);
    assert i > 0 ==> t[i - 1].End() <= t[i].address;
  }

  /** It happens: a block with a wide gap before it and a neighbour right behind. */
  lemma MoveCanLandBefore()
    ensures var t := [Entry(4096, 16), Entry(8192, 16), Entry(8208, 16)];
            WellPlaced(t, 4096) && Moves(t, 1, 64) && !LandsAfter(t, 1, 64, 1)
  {
    var t := [Entry(4096, 16), Entry(8192, 16), Entry(8208, 16)];
    AlignBounds(4112, 1);
    assert FitsBehind(t, 0, 64, 1);
    assert FirstFit(t, 0, 64, 1) == 0;
  }

  /** memcpy(dst, src, n) on a memory seen as a function. */
  function Copied(mem: Ram, dst: nat, src: nat, n: nat): Ram {
    (a: nat) => if dst <= a < dst + n then mem(src + (a - dst)) else mem(a)
  }

  /** Whenever it does not, some contents of the old block are lost. */
  lemma MoveLosesContents(t: seq<Entry>, start: nat, i: nat, size: nat, align: nat) returns (mem: Ram)
    requires WellPlaced(t, start) && i < |t| && 0 < t[i].length < size
    requires !LandsAfter(t, i, size, align)
    ensures var src := MoveSource(t, start, i, size, align);
            var dst := NewEntry(t, start, size, align).address;
            Copied(mem, dst, src.address, src.length)(dst) != mem(t[i].address)
  {
    mem := (a: nat) => if a == t[i].address then 1 else 0;
    var n := NewIndex(t, size, align);
    var u := Alloc(t, start, size, align);
    AllocWellPlaced(t, start, size, align);
    AllocSlot(t, start, size, align, n);
    AllocSlot(t, start, size, align, i + 1);
    assert u[n].End() <= u[i + 1].address;
    assert u[i].End() <= u[i + 1].address;
  }

  /**
    Whether the copy of a move leaves all other blocks alone: it reads the old
    block, or the new block itself, or a block that ends before it reaches one
    behind the new place.
   */
  predicate SparingMove(t: seq<Entry>, start: nat, i: nat, size: nat, align: nat)
    requires i < |t|
  {
    var n, dst := NewIndex(t, size, align), NewEntry(t, start, size, align).address;
    i <= n || forall k | n <= k < i && t[k].length > 0 :: dst + t[i - 1].length <= t[k].address
  }

  /** With no empty blocks only the first block behind the new place matters. */
  lemma SparingMoveMeans(t: seq<Entry>, start: nat, i: nat, size: nat, align: nat)
    requires WellPlaced(t, start) && i < |t| && forall k | 0 <= k < |t| :: t[k].length > 0
    ensures var n, dst := NewIndex(t, size, align), NewEntry(t, start, size, align).address;
            SparingMove(t, start, i, size, align) <==> i <= n || dst + t[i - 1].length <= t[n].address
  {
    var n := NewIndex(t, size, align);
    if n < i {
      forall k | n <= k < i ensures t[n].address <= t[k].address {
        if n < k { assert t[n].End() <= t[k].address; }
      }
    }
  }

  /** The copy of a move on a flat memory. */
  ghost function AfterCopy(mem: Ram, t: seq<Entry>, start: nat, i: nat, size: nat, align: nat): Ram
    requires i < |t|
  {
    var src := MoveSource(t, start, i, size, align);
    Copied(mem, NewEntry(t, start, size, align).address, src.address, src.length)
  }

  /** Where the copy writes, seen from block k. */
  lemma CopyBounds(t: seq<Entry>, start: nat, i: nat, size: nat, align: nat, k: nat)
    requires WellPlaced(t, start) && i < |t| && t[i].length < size && k < |t|
    ensures var n, dst := NewIndex(t, size, align), NewEntry(t, start, size, align).address;
            var src := MoveSource(t, start, i, size, align);
            && (k < n ==> t[k].End() <= dst)
            && (n <= k ==> dst + size <= t[k].address)
            && (i < n ==> src == t[i])
            && (i == n ==> src == NewEntry(t, start, size, align))
            && (n < i ==> src == t[i - 1] && dst + size <= src.address && dst + src.length <= t[i].address)
            && (n < i <= k ==> dst + src.length <= t[k].address)
  {
    var u, n := Alloc(t, start, size, align), NewIndex(t, size, align);
    AllocWellPlaced(t, start, size, align);
    AllocSlot(t, start, size, align, n);
    AllocSlot(t, start, size, align, i);
    AllocSlot(t, start, size, align, k);
    AllocSlot(t, start, size, align, k + 1);
    if k < n { assert u[k].End() <= u[n].address; } else { assert u[n].End() <= u[k + 1].address; }
    if n < i {
      AllocSlot(t, start, size, align, i + 1);
      assert u[n].End() <= u[i].address && u[i].End() <= u[i + 1].address;
      assert i < k ==> t[i].End() <= t[k].address;
    }
  }

  /** A sparing move changes no byte of another block. */
  lemma SparingMoveSpares(mem: Ram, t: seq<Entry>, start: nat, i: nat, size: nat, align: nat, k: nat, a: nat)
    requires WellPlaced(t, start) && i < |t| && t[i].length < size && SparingMove(t, start, i, size, align)
    requires k < |t| && t[k].address <= a < t[k].End()
    ensures AfterCopy(mem, t, start, i, size, align)(a) == mem(a)
  {
    CopyBounds(t, start, i, size, align, k);
  }

  /** Any other move changes a byte of another block, for some memory. */
  lemma OtherMoveSpoils(t: seq<Entry>, start: nat, i: nat, size: nat, align: nat) returns (mem: Ram, k: nat)
    requires WellPlaced(t, start) && i < |t| && t[i].length < size && !SparingMove(t, start, i, size, align)
    ensures k < i && t[k].length > 0
    ensures AfterCopy(mem, t, start, i, size, align)(t[k].address) != mem(t[k].address)
  {
    var n, dst := NewIndex(t, size, align), NewEntry(t, start, size, align).address;
    k :| n <= k < i && t[k].length > 0 && dst + t[i - 1].length > t[k].address;
    var x := t[k].address;
    mem := (a: nat) => if a == x then 1 else 0;
    CopyBounds(t, start, i, size, align, k);
  }

  ghost predicate SparesFor(mem: Ram, t: seq<Entry>, start: nat, i: nat, size: nat, align: nat)
    requires i < |t|
  {
    forall k, a | 0 <= k < |t| && k != i && t[k].address <= a < t[k].End() ::
      AfterCopy(mem, t, start, i, size, align)(a) == mem(a)
  }

  /** So a move leaves every other block alone, whatever memory holds, exactly if it is a sparing one. */
  lemma MoveSparesExactly(t: seq<Entry>, start: nat, i: nat, size: nat, align: nat)
    requires WellPlaced(t, start) && i < |t| && t[i].length < size
    ensures (forall mem: Ram :: SparesFor(mem, t, start, i, size, align)) <==> SparingMove(t, start, i, size, align)
  {
    if SparingMove(t, start, i, size, align) {
      forall mem: Ram
        ensures SparesFor(mem, t, start, i, size, align)
      {
        forall k, a | 0 <= k < |t| && k != i && t[k].address <= a < t[k].End()
          ensures AfterCopy(mem, t, start, i, size, align)(a) == mem(a)
        {
          SparingMoveSpares(mem, t, start, i, size, align, k, a);
        }
      }
    } else {
      var mem, k := OtherMoveSpoils(t, start, i, size, align);
      assert !SparesFor(mem, t, start, i, size, align);
    }
  }

  /** It happens: growing the third block copies the second one over itself. */
  lemma MoveCanSpoilOther()
    ensures var t := [Entry(4096, 16), Entry(4200, 2000), Entry(6200, 16), Entry(6216, 16)];
            WellPlaced(t, 4096) && Moves(t, 2, 64) && !SparingMove(t, 4096, 2, 64, 1)
  {
    var t := [Entry(4096, 16), Entry(4200, 2000), Entry(6200, 16), Entry(6216, 16)];
    AlignOfOne(4112);
    assert FitsBehind(t, 0, 64, 1);
    assert FirstFit(t, 0, 64, 1) == 0;
    assert t[1].length > 0 && NewEntry(t, 4096, 64, 1).address + t[1].length > t[1].address;
  }

  lemma AlignOfOne(v: nat)
    ensures Align(v, 1) == v
  {
    AlignBounds(v, 1);
  }

  // ------------------------------------------------------- the pages a block needs

  ghost predicate MappedRange(pages: PageMap, first: nat, n: nat) {
    forall p | first <= p < first + n :: p in pages
  }

  /** The mapping loop runs far enough to cover the block wherever it starts in its page. */
  lemma LoopCoversBlock(e: Entry, p: nat)
    requires Touches(e, p)
    ensures e.address / 4096 <= p < e.address / 4096 + ((e.length + 4095) / 4096 + 1)
  {
  }

  lemma BackedAfterAlloc(t: seq<Entry>, start: nat, size: nat, align: nat, pages: PageMap, pages': PageMap)
    requires Backed(t, pages) && Extends(pages, pages')
    requires var e := NewEntry(t, start, size, align);
             MappedRange(pages', e.address / 4096, (size + 4095) / 4096 + 1)
    ensures Backed(Alloc(t, start, size, align), pages')
  {
    var u, n := Alloc(t, start, size, align), NewIndex(t, size, align);
    forall i, p | 0 <= i < |u| && Touches(u[i], p)
      ensures p in pages'
    {
      AllocSlot(t, start, size, align, i);
      if i == n { LoopCoversBlock(u[n], p); }
      else if i < n { assert Touches(t[i], p); }
      else { assert Touches(t[i - 1], p); }
    }
  }

  lemma BackedAfterRemove(t: seq<Entry>, i: nat, pages: PageMap)
    requires Backed(t, pages) && i < |t|
    ensures Backed(RemoveAt(t, i), pages)
  {
    var u := RemoveAt(t, i);
    forall j, p | 0 <= j < |u| && Touches(u[j], p)
      ensures p in pages
    {
      assert Touches(t[if j < i then j else j + 1], p);
    }
  }

  lemma BackedAfterResize(t: seq<Entry>, i: nat, length: nat, pages: PageMap, pages': PageMap)
    requires i < |t| && Backed(t, pages) && Extends(pages, pages')
    requires length <= t[i].length || MappedRange(pages', t[i].address / 4096, (length + 4095) / 4096 + 1)
    ensures Backed(t[i := t[i].(length := length)], pages')
  {
    var u := t[i := t[i].(length := length)];
    forall j, p | 0 <= j < |u| && Touches(u[j], p)
      ensures p in pages'
    {
      if j != i || length <= t[i].length {
        if j == i { TouchesMonotone(t[i], length, p); }
        assert Touches(t[j], p);
      } else {
        LoopCoversBlock(u[i], p);
      }
    }
  }

  lemma TouchesMonotone(e: Entry, length: nat, p: nat)
    requires length <= e.length && Touches(e.(length := length), p)
    ensures Touches(e, p)
  {
  }

  lemma BackedWithout(t: seq<Entry>, pages: PageMap, v: nat)
    requires Backed(t, pages) && Untouched(t, v)
    ensures Backed(t, pages - {v})
  {
  }

  /** The first n bytes at `from` before are the first n bytes at `to` after. */
  ghost predicate KeepsPrefix(from: nat, to: nat, n: nat, p: PageMap, r: Ram, p': PageMap, r': Ram) {
    forall a {:trigger Load(p', r', a)} {:trigger Present(p', a)} | to <= a < to + n ::
      && Present(p, from + (a - to)) && Present(p', a)
      && Load(p', r', a) == Load(p, r, from + (a - to))
  }

  /** memcpy's effect on the bytes reached through p. */
  ghost predicate CopiedBytes(p: PageMap, r: Ram, r': Ram, dst: nat, src: nat, n: nat) {
    forall a {:trigger Load(p, r', a)} | dst <= a < dst + n :: Load(p, r', a) == Load(p, r, src + (a - dst))
  }

  lemma LoadExtends(p: PageMap, p': PageMap, r: Ram, a: nat)
    requires Extends(p, p') && Present(p, a)
    ensures Present(p', a) && Load(p', r, a) == Load(p, r, a)
  {
  }

  /** Mapping more pages keeps a block's bytes. */
  lemma GrowthKeepsBytes(t: seq<Entry>, i: nat, p: PageMap, p': PageMap, r: Ram)
    requires i < |t| && Backed(t, p) && Extends(p, p')
    ensures KeepsPrefix(t[i].address, t[i].address, t[i].length, p, r, p', r)
  {
    BlockIsPresent(t, i, p);
    forall a | t[i].address <= a < t[i].End()
      ensures Present(p, a) && Present(p', a) && Load(p', r, a) == Load(p, r, a)
    {
      LoadExtends(p, p', r, a);
    }
  }

  lemma BlockIsPresent(t: seq<Entry>, i: nat, p: PageMap)
    requires i < |t| && Backed(t, p)
    ensures AllPresent(p, t[i].address, t[i].length)
  {
    forall a | t[i].address <= a < t[i].End()
      ensures Present(p, a)
    {
      BytesAreTouched(t[i], a);
    }
  }

  function Resized(t: seq<Entry>, i: nat, length: nat): seq<Entry>
    requires i < |t|
  {
    t[i := t[i].(length := length)]
  }

  /** krealloc_common cannot grow block i where it is. */
  predicate Moves(t: seq<Entry>, i: nat, size: nat) {
    i + 1 < |t| && t[i].length < size && t[i + 1].address <= t[i].address + size
  }

  function MovedTable(t: seq<Entry>, start: nat, i: nat, size: nat, align: nat): seq<Entry>
    requires i < |t|
  {
    var u := Alloc(t, start, size, align);
    var j := IndexOf(u, t[i].address);
    if j < |u| then RemoveAt(u, j) else u
  }

  function ReallocTable(t: seq<Entry>, start: nat, ptr: nat, size: nat, align: nat): seq<Entry> {
    var i := IndexOf(t, ptr);
    if ptr == 0 || i == |t| then t
    else if Moves(t, i, size) then MovedTable(t, start, i, size, align)
    else Resized(t, i, size)
  }

  /** A reallocation has put a block of the new size at `to` in place of block i. */
  ghost predicate Reallocated(t: seq<Entry>, u: seq<Entry>, i: nat, to: nat, size: nat)
    requires i < |t|
  {
    && |u| == |t| && Entry(to, size) in u
    && multiset(u) == multiset(t) - multiset{t[i]} + multiset{Entry(to, size)}
    && TotalLength(u) == TotalLength(t) - t[i].length + size
  }

  lemma UpdatedMultiset(t: seq<Entry>, i: nat, e: Entry)
    requires i < |t|
    ensures multiset(t[i := e]) == multiset(t) - multiset{t[i]} + multiset{e}
  {
  }

  lemma ResizedHolds(t: seq<Entry>, i: nat, size: nat)
    requires i < |t|
    ensures Reallocated(t, Resized(t, i, size), i, t[i].address, size)
  {
    var e, u := Entry(t[i].address, size), Resized(t, i, size);
    assert u == t[i := e];
    UpdatedMultiset(t, i, e);
    TotalOfResize(t, i, size);
    assert u[i] == e;
  }

  /** The old block is found where it is in the new table. */
  lemma OldBlockFound(t: seq<Entry>, start: nat, i: nat, size: nat, align: nat)
    requires WellPlaced(t, start) && i < |t| && i == IndexOf(t, t[i].address) && t[i].length < size
    ensures var u, n := Alloc(t, start, size, align), NewIndex(t, size, align);
            var j := if i < n then i else i + 1;
            j < |u| && IndexOf(u, t[i].address) == j && u[j] == t[i]
  {
    var u, n := Alloc(t, start, size, align), NewIndex(t, size, align);
    var j := if i < n then i else i + 1;
    AllocSlot(t, start, size, align, j);
    forall k | 0 <= k < j
      ensures u[k].address != t[i].address
    {
      NotTheOldBlock(t, start, i, size, align, k);
    }
  }

  lemma NotTheOldBlock(t: seq<Entry>, start: nat, i: nat, size: nat, align: nat, k: nat)
    requires WellPlaced(t, start) && i < |t| && i == IndexOf(t, t[i].address) && t[i].length < size
    requires k < if i < NewIndex(t, size, align) then i else i + 1
    ensures var u := Alloc(t, start, size, align);
            k < |u| && u[k].address != t[i].address
  {
    var u, n := Alloc(t, start, size, align), NewIndex(t, size, align);
    AllocSlot(t, start, size, align, k);
    if k == n {
      AllocWellPlaced(t, start, size, align);
      AllocSlot(t, start, size, align, i + 1);
      assert u[n].End() <= u[i + 1].address;
    }
  }

  lemma SwappedMultiset(t: seq<Entry>, n: nat, e: Entry, j: nat)
    requires n <= |t| && j <= |t|
    ensures var u := InsertAt(t, n, e);
            multiset(RemoveAt(u, j)) == multiset(t) + multiset{e} - multiset{u[j]}
  {
    var u := InsertAt(t, n, e);
    assert t == t[..n] + t[n..];
    assert u == u[..j] + [u[j]] + u[j + 1..];
    assert multiset(u) == multiset(t) + multiset{e};
  }

  lemma SwappedTotal(t: seq<Entry>, n: nat, e: Entry, j: nat)
    requires n <= |t| && j <= |t|
    ensures var u := InsertAt(t, n, e);
            TotalLength(RemoveAt(u, j)) == TotalLength(t) + e.length - u[j].length
  {
    TotalOfInsert(t, n, e);
    TotalOfRemove(InsertAt(t, n, e), j);
  }

  lemma MovedHolds(t: seq<Entry>, start: nat, i: nat, size: nat, align: nat)
    requires WellPlaced(t, start) && i < |t| && i == IndexOf(t, t[i].address) && t[i].length < size
    ensures Reallocated(t, MovedTable(t, start, i, size, align), i, NewEntry(t, start, size, align).address, size)
  {
    var n, e := NewIndex(t, size, align), NewEntry(t, start, size, align);
    var j := if i < n then i else i + 1;
    OldBlockFound(t, start, i, size, align);
    SwappedHolds(t, i, n, e, j);
    assert MovedTable(t, start, i, size, align) == RemoveAt(InsertAt(t, n, e), j);
  }

  lemma SwappedHolds(t: seq<Entry>, i: nat, n: nat, e: Entry, j: nat)
    requires n <= |t| && j <= |t| && i < |t| && InsertAt(t, n, e)[j] == t[i]
    ensures Reallocated(t, RemoveAt(InsertAt(t, n, e), j), i, e.address, e.length)
  {
    SwappedMultiset(t, n, e, j);
    SwappedTotal(t, n, e, j);
    assert t[i] in multiset(t);
    assert e in multiset(RemoveAt(InsertAt(t, n, e), j));
  }

  /** Every reallocation of a block that is found leaves a block of the new size, moved or not, and no other change. */
  lemma ReallocHolds(t: seq<Entry>, start: nat, ptr: nat, size: nat, align: nat)
    requires WellPlaced(t, start) && ptr != 0 && IndexOf(t, ptr) < |t|
    ensures var i := IndexOf(t, ptr);
            var stays := i + 1 == |t| || size <= t[i].length || ptr + size < t[i + 1].address;
            Reallocated(t, ReallocTable(t, start, ptr, size, align), i,
                        if stays then ptr else NewEntry(t, start, size, align).address, size)
  {
    var i := IndexOf(t, ptr);
    if Moves(t, i, size) { MovedHolds(t, start, i, size, align); } else { ResizedHolds(t, i, size); }
  }

  /** The block need not move, or its new place is behind the old one. */
  predicate SafeRealloc(t: seq<Entry>, ptr: nat, size: nat, align: nat) {
    var i := IndexOf(t, ptr);
    Moves(t, i, size) ==> LandsAfter(t, i, size, align)
  }

  /** The block need not move, or its move leaves all other blocks alone. */
  predicate SparesOthers(t: seq<Entry>, start: nat, ptr: nat, size: nat, align: nat) {
    var i := IndexOf(t, ptr);
    Moves(t, i, size) ==> SparingMove(t, start, i, size, align)
  }

  /** What krealloc_common promises about the bytes, and when the move path keeps it. */
  ghost predicate ReallocKeeps(t: seq<Entry>, ptr: nat, to: nat, size: nat, align: nat,
                               p: PageMap, r: Ram, p': PageMap, r': Ram)
  {
    var i := IndexOf(t, ptr);
    ptr != 0 && i < |t| && SafeRealloc(t, ptr, size, align) ==>
      KeepsPrefix(ptr, to, if size < t[i].length then size else t[i].length, p, r, p', r')
  }

  /** What a reallocation that went through has kept. */
  ghost predicate ReallocKept(t: seq<Entry>, start: nat, ptr: nat, to: nat, size: nat, align: nat, w: seq<Entry>,
                              p: PageMap, r: Ram, p': PageMap, r': Ram)
  {
    && ReallocKeeps(t, ptr, to, size, align, p, r, p', r')
    && (SparesOthers(t, start, ptr, size, align) ==> KeepsOthers(t, w, ptr, p, r, p', r'))
  }

  lemma KeptInPlace(t: seq<Entry>, start: nat, ptr: nat, size: nat, align: nat, w: seq<Entry>,
                    p: PageMap, r: Ram, p': PageMap, r': Ram)
    requires var i := IndexOf(t, ptr);
             i < |t| && KeepsPrefix(ptr, ptr, if size < t[i].length then size else t[i].length, p, r, p', r')
    requires KeepsOthers(t, w, ptr, p, r, p', r')
    ensures ReallocKept(t, start, ptr, ptr, size, align, w, p, r, p', r')
  {
  }

  lemma KeptByMove(t: seq<Entry>, start: nat, ptr: nat, i: nat, size: nat, align: nat, w: seq<Entry>,
                   p: PageMap, r: Ram, p': PageMap, r': Ram)
    requires i == IndexOf(t, ptr) && i < |t| && Moves(t, i, size)
    requires MoveKept(t, start, i, size, align, w, p, r, p', r')
    ensures ReallocKept(t, start, ptr, NewEntry(t, start, size, align).address, size, align, w, p, r, p', r')
  {
  }

  /** In the good case both ends of the copy are mapped and apart. */
  lemma MoveIsPresent(t: seq<Entry>, start: nat, i: nat, size: nat, align: nat, u: seq<Entry>, p: PageMap)
    requires WellPlaced(t, start) && i < |t| && t[i].length < size
    requires u == Alloc(t, start, size, align) && Backed(u, p)
    ensures |u| == |t| + 1
    ensures LandsAfter(t, i, size, align) ==>
              var dst := NewEntry(t, start, size, align).address;
              && u[i] == t[i] && t[i].End() <= dst
              && AllPresent(p, dst, t[i].length) && AllPresent(p, t[i].address, t[i].length)
  {
    AllocSlot(t, start, size, align, i);
    if LandsAfter(t, i, size, align) {
      var n := NewIndex(t, size, align);
      AllocWellPlaced(t, start, size, align);
      AllocSlot(t, start, size, align, n);
      assert u[i].End() <= u[n].address;
      BlockIsPresent(u, i, p);
      BlockIsPresent(u, n, p);
    }
  }

  /** The old block is still in the table, so kfree finds an entry at its address. */
  lemma OldBlockStays(t: seq<Entry>, start: nat, i: nat, size: nat, align: nat)
    requires i < |t|
    ensures var u := Alloc(t, start, size, align);
            IndexOf(u, t[i].address) < |u|
  {
    AllocSlot(t, start, size, align, i);
    AllocSlot(t, start, size, align, i + 1);
  }

  /** The new block survives the removal of the old one. */
  lemma MovedTableHoldsNew(t: seq<Entry>, start: nat, i: nat, size: nat, align: nat)
    requires i < |t| && LandsAfter(t, i, size, align)
    ensures var w, n := MovedTable(t, start, i, size, align), NewIndex(t, size, align);
            n - 1 < |w| && w[n - 1] == NewEntry(t, start, size, align)
  {
    AllocSlot(t, start, size, align, i);
    AllocSlot(t, start, size, align, NewIndex(t, size, align));
  }

  lemma MoveKeepsBytes(t: seq<Entry>, start: nat, i: nat, size: nat, align: nat,
                       p0: PageMap, r0: Ram, p1: PageMap, p2: PageMap, r2: Ram)
    requires i < |t| && t[i].length < size && LandsAfter(t, i, size, align)
    requires Backed(t, p0) && Extends(p0, p1) && Extends(p2, p1)
    requires Backed(MovedTable(t, start, i, size, align), p2)
    requires CopiedBytes(p1, r0, r2, NewEntry(t, start, size, align).address, t[i].address, t[i].length)
    ensures KeepsPrefix(t[i].address, NewEntry(t, start, size, align).address, t[i].length, p0, r0, p2, r2)
  {
    MovedTableHoldsNew(t, start, i, size, align);
    BlockIsPresent(MovedTable(t, start, i, size, align), NewIndex(t, size, align) - 1, p2);
    BlockIsPresent(t, i, p0);
    CopyThenDrop(t[i].address, NewEntry(t, start, size, align).address, t[i].length, p0, r0, p1, p2, r2);
  }

  lemma CopyThenDrop(src: nat, dst: nat, n: nat, p0: PageMap, r0: Ram, p1: PageMap, p2: PageMap, r2: Ram)
    requires Extends(p0, p1) && Extends(p2, p1)
    requires AllPresent(p0, src, n) && AllPresent(p2, dst, n)
    requires CopiedBytes(p1, r0, r2, dst, src, n)
    ensures KeepsPrefix(src, dst, n, p0, r0, p2, r2)
  {
    forall a | dst <= a < dst + n
      ensures Present(p0, src + (a - dst)) && Present(p2, a)
      ensures Load(p2, r2, a) == Load(p0, r0, src + (a - dst))
    {
      LoadExtends(p2, p1, r2, a);
      LoadExtends(p0, p1, r0, src + (a - dst));
    }
  }

  // ------------------------------------------------------- blocks that an operation is not about

  /** Every block of t except those at `ptr` is still in t' with the same bytes. */
  ghost predicate KeepsOthers(t: seq<Entry>, t': seq<Entry>, ptr: nat, p: PageMap, r: Ram, p': PageMap, r': Ram) {
    forall i {:trigger SameBytes(t[i], p, r, p', r')} | 0 <= i < |t| && t[i].address != ptr ::
      t[i] in t' && SameBytes(t[i], p, r, p', r')
  }

  lemma SameBytesVia(e: Entry, p: PageMap, p': PageMap, r: Ram)
    requires AllPresent(p, e.address, e.length) && AllPresent(p', e.address, e.length)
    requires Extends(p, p') || Extends(p', p)
    ensures SameBytes(e, p, r, p', r)
  {
    forall a | e.address <= a < e.End()
      ensures Present(p, a) && Present(p', a) && Load(p', r, a) == Load(p, r, a)
    {
      if Extends(p, p') { LoadExtends(p, p', r, a); } else { LoadExtends(p', p, r, a); }
    }
  }

  lemma AllocKeepsEntries(t: seq<Entry>, start: nat, size: nat, align: nat, i: nat)
    requires i < |t|
    ensures t[i] in Alloc(t, start, size, align)
  {
    var u := Alloc(t, start, size, align);
    AllocSlot(t, start, size, align, i);
    AllocSlot(t, start, size, align, i + 1);
    assert u[i] == t[i] || u[i + 1] == t[i];
  }

  lemma MallocKeepsOthers(t: seq<Entry>, start: nat, size: nat, align: nat, p: PageMap, p': PageMap, r: Ram, ptr: nat)
    requires Backed(t, p) && Extends(p, p')
    ensures KeepsOthers(t, Alloc(t, start, size, align), ptr, p, r, p', r)
  {
    forall i | 0 <= i < |t| && t[i].address != ptr
      ensures t[i] in Alloc(t, start, size, align) && SameBytes(t[i], p, r, p', r)
    {
      AllocKeepsEntries(t, start, size, align, i);
      BlockIsPresent(t, i, p);
      BlockExtends(p, p', t[i]);
      SameBytesVia(t[i], p, p', r);
    }
  }

  lemma BlockExtends(p: PageMap, p': PageMap, e: Entry)
    requires Extends(p, p') && AllPresent(p, e.address, e.length)
    ensures AllPresent(p', e.address, e.length)
  {
    forall a | e.address <= a < e.End()
      ensures Present(p', a)
    {
      assert Present(p, a);
    }
  }

  lemma FreeKeepsOthers(t: seq<Entry>, k: nat, p: PageMap, p': PageMap, r: Ram)
    requires k < |t| && Backed(t, p) && Backed(RemoveAt(t, k), p') && Extends(p', p)
    ensures KeepsOthers(t, RemoveAt(t, k), t[k].address, p, r, p', r)
  {
    var u := RemoveAt(t, k);
    forall i | 0 <= i < |t| && t[i].address != t[k].address
      ensures t[i] in u && SameBytes(t[i], p, r, p', r)
    {
      var j := if i < k then i else i - 1;
      assert u[j] == t[i];
      BlockIsPresent(t, i, p);
      BlockIsPresent(u, j, p');
      SameBytesVia(t[i], p, p', r);
    }
  }

  lemma ResizeKeepsOthers(t: seq<Entry>, k: nat, length: nat, p: PageMap, p': PageMap, r: Ram)
    requires k < |t| && Backed(t, p) && Extends(p, p')
    ensures KeepsOthers(t, Resized(t, k, length), t[k].address, p, r, p', r)
  {
    var u := Resized(t, k, length);
    forall i | 0 <= i < |t| && t[i].address != t[k].address
      ensures t[i] in u && SameBytes(t[i], p, r, p', r)
    {
      assert u[i] == t[i];
      BlockIsPresent(t, i, p);
      BlockExtends(p, p', t[i]);
      SameBytesVia(t[i], p, p', r);
    }
  }

  /** Bytes outside the copied range are not the copy's business. */
  ghost predicate SameOutside(p: PageMap, r: Ram, r': Ram, dst: nat, n: nat) {
    forall a: nat {:trigger Load(p, r', a)} | !(dst <= a < dst + n) :: Load(p, r', a) == Load(p, r, a)
  }

  lemma OutsideSameBytes(e: Entry, p: PageMap, p': PageMap, r: Ram, r': Ram, dst: nat, n: nat)
    requires AllPresent(p, e.address, e.length) && Extends(p, p') && SameOutside(p', r, r', dst, n)
    requires e.length == 0 || e.End() <= dst || dst + n <= e.address
    ensures SameBytes(e, p, r, p', r')
  {
    BlockExtends(p, p', e);
    SameBytesVia(e, p, p', r);
  }

  /** A sparing copy leaves every older block alone. */
  lemma CopyKeepsOthers(t: seq<Entry>, start: nat, i: nat, size: nat, align: nat,
                        p: PageMap, p': PageMap, r: Ram, r': Ram)
    requires WellPlaced(t, start) && Backed(t, p) && Extends(p, p')
    requires i < |t| && t[i].length < size && SparingMove(t, start, i, size, align)
    requires var e := NewEntry(t, start, size, align);
             SameOutside(p', r, r', e.address, MoveSource(t, start, i, size, align).length)
    ensures KeepsOthers(t, Alloc(t, start, size, align), 0, p, r, p', r')
  {
    var dst, n := NewEntry(t, start, size, align).address, MoveSource(t, start, i, size, align).length;
    forall k | 0 <= k < |t| && t[k].address != 0
      ensures t[k] in Alloc(t, start, size, align) && SameBytes(t[k], p, r, p', r')
    {
      AllocKeepsEntries(t, start, size, align, k);
      CopyBounds(t, start, i, size, align, k);
      BlockIsPresent(t, k, p);
      OutsideSameBytes(t[k], p, p', r, r', dst, n);
    }
  }

  lemma KeepsOthersComposes(t: seq<Entry>, u: seq<Entry>, w: seq<Entry>, start: nat, ptr: nat,
                            p: PageMap, r: Ram, p1: PageMap, r1: Ram, p2: PageMap, r2: Ram)
    requires WellPlaced(t, start) && start > 0
    requires KeepsOthers(t, u, 0, p, r, p1, r1) && KeepsOthers(u, w, ptr, p1, r1, p2, r2)
    ensures KeepsOthers(t, w, ptr, p, r, p2, r2)
  {
    forall i | 0 <= i < |t| && t[i].address != ptr
      ensures t[i] in w && SameBytes(t[i], p, r, p2, r2)
    {
      assert SameBytes(t[i], p, r, p1, r1);
      var j :| 0 <= j < |u| && u[j] == t[i];
      assert SameBytes(u[j], p1, r1, p2, r2);
      SameBytesChain(t[i], p, r, p1, r1, p2, r2);
    }
  }

  /** What the copy of a move has done once it went through. */
  ghost predicate CopyDone(t: seq<Entry>, start: nat, i: nat, size: nat, align: nat, p: PageMap, r: Ram, r': Ram)
    requires i < |t|
  {
    var dst, src := NewEntry(t, start, size, align).address, MoveSource(t, start, i, size, align);
    && SameOutside(p, r, r', dst, src.length)
    && (LandsAfter(t, i, size, align) ==> CopiedBytes(p, r, r', dst, src.address, src.length))
  }

  /** A sparing move keeps the other blocks even where it loses the moved one. */
  lemma SparingMoveKeeps(t: seq<Entry>, start: nat, i: nat, size: nat, align: nat,
                         p0: PageMap, r0: Ram, p1: PageMap, w: seq<Entry>, p2: PageMap, r1: Ram)
    requires WellPlaced(t, start) && start > 0
    requires i < |t| && t[i].length < size && SparingMove(t, start, i, size, align)
    requires Backed(t, p0) && Extends(p0, p1)
    requires CopyDone(t, start, i, size, align, p1, r0, r1)
    requires KeepsOthers(Alloc(t, start, size, align), w, t[i].address, p1, r1, p2, r1)
    ensures KeepsOthers(t, w, t[i].address, p0, r0, p2, r1)
  {
    CopyKeepsOthers(t, start, i, size, align, p0, p1, r0, r1);
    KeepsOthersComposes(t, Alloc(t, start, size, align), w, start, t[i].address, p0, r0, p1, r1, p2, r1);
  }

  /** What a move that went through has kept. */
  ghost predicate MoveKept(t: seq<Entry>, start: nat, i: nat, size: nat, align: nat, w: seq<Entry>,
                           p0: PageMap, r0: Ram, p2: PageMap, r1: Ram)
    requires i < |t|
  {
    var to := NewEntry(t, start, size, align).address;
    && (LandsAfter(t, i, size, align) ==> KeepsPrefix(t[i].address, to, t[i].length, p0, r0, p2, r1))
    && (SparingMove(t, start, i, size, align) ==> KeepsOthers(t, w, t[i].address, p0, r0, p2, r1))
  }

  lemma MoveKeeps(t: seq<Entry>, start: nat, i: nat, size: nat, align: nat,
                  p0: PageMap, r0: Ram, p1: PageMap, w: seq<Entry>, p2: PageMap, r1: Ram)
    requires WellPlaced(t, start) && start > 0 && i < |t| && t[i].length < size
    requires Backed(t, p0) && Extends(p0, p1) && Extends(p2, p1)
    requires w == MovedTable(t, start, i, size, align) && Backed(w, p2)
    requires CopyDone(t, start, i, size, align, p1, r0, r1)
    requires KeepsOthers(Alloc(t, start, size, align), w, t[i].address, p1, r1, p2, r1)
    ensures MoveKept(t, start, i, size, align, w, p0, r0, p2, r1)
  {
    if SparingMove(t, start, i, size, align) {
      SparingMoveKeeps(t, start, i, size, align, p0, r0, p1, w, p2, r1);
    }
    if LandsAfter(t, i, size, align) {
      AllocSlot(t, start, size, align, i);
      MoveKeepsBytes(t, start, i, size, align, p0, r0, p1, p2, r1);
    }
  }

  lemma NothingChanged(t: seq<Entry>, p: PageMap, r: Ram, ptr: nat)
    requires Backed(t, p)
    ensures KeepsOthers(t, t, ptr, p, r, p, r)
  {
    forall i | 0 <= i < |t|
      ensures SameBytes(t[i], p, r, p, r)
    {
      BlockIsPresent(t, i, p);
      SameBytesVia(t[i], p, p, r);
    }
  }

  lemma SameBytesChain(e: Entry, p: PageMap, r: Ram, p1: PageMap, r1: Ram, p2: PageMap, r2: Ram)
    requires SameBytes(e, p, r, p1, r1) && SameBytes(e, p1, r1, p2, r2)
    ensures SameBytes(e, p, r, p2, r2)
  {
  }

  lemma KeptAtFirst(t: seq<Entry>, e: Entry, p: PageMap, r: Ram)
    requires Backed(t, p) && e in t
    ensures SameBytes(e, p, r, p, r)
  {
    var i :| 0 <= i < |t| && t[i] == e;
    BlockIsPresent(t, i, p);
    SameBytesVia(e, p, p, r);
  }

  /** A block that a step is not about is still there, and what keeps its bytes from then on keeps them from before. */
  lemma KeptByStep(t: seq<Entry>, u: seq<Entry>, ptr: nat, e: Entry,
                   p0: PageMap, r0: Ram, p1: PageMap, r1: Ram, p2: PageMap, r2: Ram)
    requires e in t && e.address != ptr && KeepsOthers(t, u, ptr, p0, r0, p1, r1)
    ensures e in u && (SameBytes(e, p1, r1, p2, r2) ==> SameBytes(e, p0, r0, p2, r2))
  {
    var i :| 0 <= i < |t| && t[i] == e;
    assert SameBytes(t[i], p0, r0, p1, r1);
  }
}
