/**
  The heap's block table of kernel/src/mem/vmm.c: an array of (address, length)
  entries kept in address order, filled by first fit between neighbours.

  The search ends only because the slot behind the last entry has address 0,
  so the zeroed tail of the array is part of the invariant.
 */
module HeapTable {
  import opened Bits

  /** `bestsize` in alloc_no_map: no block may end at or above it. */
  const LIMIT: nat := 0xFFFF_FFFF

  datatype Entry = Entry(address: nat, length: nat) {
    function End(): nat { address + length }
  }

  const FREE_SLOT := Entry(0, 0)

  // ------------------------------------------------------- tables as sequences

  /** Entries lie at or above `start`, in order, and do not overlap. */
  ghost predicate WellPlaced(t: seq<Entry>, start: nat) {
    && (forall i | 0 <= i < |t| :: start <= t[i].address)
    && (forall i, j | 0 <= i < j < |t| :: t[i].End() <= t[j].address)
  }

  function TotalLength(t: seq<Entry>): nat {
    if t == [] then 0 else TotalLength(t[..|t| - 1]) + t[|t| - 1].length
  }

  /** Where a block would start behind e; alignment 0 means none. */
  function Behind(e: Entry, align: nat): (a: nat) {
    if align == 0 then e.End() else Align(e.End(), align)
  }

  lemma BehindIsAfter(e: Entry, align: nat)
    ensures Behind(e, align) >= e.End()
  {
    if align > 0 { AlignBounds(e.End(), align); }
  }

  predicate FitsBehind(t: seq<Entry>, i: nat, size: nat, align: nat)
    requires i < |t|
  {
    i + 1 == |t| || Behind(t[i], align) + size <= t[i + 1].address
  }

  /** First fit: the first entry behind which the block fits. */
  function FirstFit(t: seq<Entry>, from: nat, size: nat, align: nat): (i: nat)
    requires from < |t|
    ensures from <= i < |t|
    ensures FitsBehind(t, i, size, align)
    ensures forall k | from <= k < i :: !FitsBehind(t, k, size, align)
    decreases |t| - from
  {
    if FitsBehind(t, from, size, align) then from else FirstFit(t, from + 1, size, align)
  }

  /** The index and the entry that alloc_no_map adds. */
  function NewIndex(t: seq<Entry>, size: nat, align: nat): (i: nat)
    ensures i <= |t|
  {
    if t == [] then 0 else FirstFit(t, 0, size, align) + 1
  }

  function NewEntry(t: seq<Entry>, start: nat, size: nat, align: nat): Entry {
    if t == [] then Entry(start, size)
    else Entry(Behind(t[FirstFit(t, 0, size, align)], align), size)
  }

  function InsertAt(t: seq<Entry>, i: nat, e: Entry): seq<Entry>
    requires i <= |t|
  {
    t[..i] + [e] + t[i..]
  }

  function RemoveAt(t: seq<Entry>, i: nat): seq<Entry>
    requires i < |t|
  {
    t[..i] + t[i + 1..]
  }

  function Alloc(t: seq<Entry>, start: nat, size: nat, align: nat): seq<Entry> {
    InsertAt(t, NewIndex(t, size, align), NewEntry(t, start, size, align))
  }

  /** The first entry with this address, or the entry count. */
  function IndexOf(t: seq<Entry>, address: nat): (i: nat)
    ensures i <= |t|
    ensures forall k | 0 <= k < i :: t[k].address != address
    ensures i < |t| ==> t[i].address == address
  {
    if t == [] then 0
    else if t[0].address == address then 0
    else
      var r := IndexOf(t[1..], address);
      assert forall k | 1 <= k < r + 1 :: t[k] == t[1..][k - 1];
      r + 1
  }

  /** What each slot holds after an allocation. */
  lemma AllocSlot(t: seq<Entry>, start: nat, size: nat, align: nat, k: nat)
    requires k <= |t|
    ensures var u, n := Alloc(t, start, size, align), NewIndex(t, size, align);
            && |u| == |t| + 1
            && (k < n ==> u[k] == t[k])
            && (k == n ==> u[k] == NewEntry(t, start, size, align))
            && (k > n ==> u[k] == t[k - 1])
  {
  }

  /** Allocation keeps the table sorted and its blocks disjoint. */
  lemma AllocWellPlaced(t: seq<Entry>, start: nat, size: nat, align: nat)
    requires WellPlaced(t, start)
    ensures WellPlaced(Alloc(t, start, size, align), start)
  {
    if t != [] {
      var i := FirstFit(t, 0, size, align);
      BehindIsAfter(t[i], align);
      InsertWellPlaced(t, start, i + 1, NewEntry(t, start, size, align));
    }
  }

  lemma InsertWellPlaced(t: seq<Entry>, start: nat, i: nat, e: Entry)
    requires WellPlaced(t, start) && 0 < i <= |t|
    requires t[i - 1].End() <= e.address
    requires i < |t| ==> e.End() <= t[i].address
    ensures WellPlaced(InsertAt(t, i, e), start)
  {
    var r := InsertAt(t, i, e);
    forall k, j | 0 <= k < j < |r|
      ensures r[k].End() <= r[j].address
    {
      var k' := if k < i then k else k - 1;
      var j' := if j < i then j else j - 1;
      if k == i || j == i {
      } else {
        assert r[k] == t[k'] && r[j] == t[j'] && k' < j';
      }
    }
  }

  lemma RemoveWellPlaced(t: seq<Entry>, start: nat, i: nat)
    requires WellPlaced(t, start) && i < |t|
    ensures WellPlaced(RemoveAt(t, i), start)
  {
  }

  lemma ResizeWellPlaced(t: seq<Entry>, start: nat, i: nat, length: nat)
    requires WellPlaced(t, start) && i < |t|
    requires i + 1 < |t| ==> t[i].address + length <= t[i + 1].address
    ensures WellPlaced(t[i := t[i].(length := length)], start)
  {
  }

  lemma {:induction false} TotalOfAppend(t: seq<Entry>, u: seq<Entry>)
    ensures TotalLength(t + u) == TotalLength(t) + TotalLength(u)
    decreases |u|
  {
    if u == [] {
      assert t + u == t;
    } else {
      assert (t + u)[..|t + u| - 1] == t + u[..|u| - 1];
      TotalOfAppend(t, u[..|u| - 1]);
    }
  }

  lemma TotalOfSplit(t: seq<Entry>, i: nat)
    requires i < |t|
    ensures TotalLength(t) == TotalLength(t[..i]) + t[i].length + TotalLength(t[i + 1..])
  {
    assert t == t[..i] + ([t[i]] + t[i + 1..]);
    TotalOfAppend(t[..i], [t[i]] + t[i + 1..]);
    TotalOfAppend([t[i]], t[i + 1..]);
    assert TotalLength([t[i]]) == t[i].length by { assert [t[i]][..0] == []; }
  }

  lemma TotalOfInsert(t: seq<Entry>, i: nat, e: Entry)
    requires i <= |t|
    ensures TotalLength(InsertAt(t, i, e)) == TotalLength(t) + e.length
  {
    var r := InsertAt(t, i, e);
    TotalOfSplit(r, i);
    assert r[..i] == t[..i] && r[i + 1..] == t[i..] && t == t[..i] + t[i..];
    TotalOfAppend(t[..i], t[i..]);
  }

  lemma TotalOfRemove(t: seq<Entry>, i: nat)
    requires i < |t|
    ensures TotalLength(RemoveAt(t, i)) == TotalLength(t) - t[i].length
  {
    TotalOfSplit(t, i);
    TotalOfAppend(t[..i], t[i + 1..]);
  }

  lemma TotalOfResize(t: seq<Entry>, i: nat, length: nat)
    requires i < |t|
    ensures TotalLength(t[i := t[i].(length := length)]) == TotalLength(t) - t[i].length + length
  {
    var r := t[i := t[i].(length := length)];
    TotalOfSplit(t, i);
    TotalOfSplit(r, i);
    assert r[..i] == t[..i] && r[i + 1..] == t[i + 1..];
  }

  /** Freeing the block just allocated restores the table. */
  lemma FreeUndoesAlloc(t: seq<Entry>, start: nat, size: nat, align: nat)
    ensures RemoveAt(Alloc(t, start, size, align), NewIndex(t, size, align)) == t
  {
    var i := NewIndex(t, size, align);
    var e := NewEntry(t, start, size, align);
    assert t == t[..i] + t[i..];
  }

  /**
    The result is aligned to a power of two exactly when the table was not
    empty or the heap start happens to be: the first block ignores `align`.
   */
  lemma AllocAligned(t: seq<Entry>, start: nat, size: nat, k: nat)
    requires k <= 32
    ensures NewEntry(t, start, size, Pow2(k)).address % Pow2(k) == 0
            <==> t != [] || start % Pow2(k) == 0
  {
    if t != [] {
      AlignIsCeiling(t[FirstFit(t, 0, size, Pow2(k))].End(), k);
    }
  }

  /** It happens: a first block asked for at a multiple of 8192 gets the usual heap start. */
  lemma FirstBlockMisaligned(size: nat)
    ensures NewEntry([], 0x100_3000, size, Pow2(13)).address % Pow2(13) != 0
  {
    Pow2OfWord();
    assert Pow2(13) == 2 * Pow2(12);
    ModUnique(0x100_3000, 8192, 2049, 4096);
  }

  /** With the page-aligned start of vmm_init, alignments up to a page hold always. */
  lemma PageStartAligned(start: nat, k: nat)
    requires start % 4096 == 0 && k <= 12
    ensures start % Pow2(k) == 0
  {
    Pow2OfWord();
    PowersDivide(k, 12);
    var c := 4096 / Pow2(k);
    assert start == Pow2(k) * (c * (start / 4096)) by {
      assert start == (Pow2(k) * c) * (start / 4096);
    }
    ModUnique(start, Pow2(k), c * (start / 4096), 0);
  }

  lemma EarlierIsLower(t: seq<Entry>, start: nat, j: nat, i: nat)
    requires WellPlaced(t, start) && j <= i < |t| && t[j].length > 0
    ensures j < i ==> t[j].address < t[i].address
  {
  }

  /** While no block is empty, an address names its block. */
  lemma AddressNamesBlock(t: seq<Entry>, start: nat, i: nat)
    requires WellPlaced(t, start) && i < |t|
    requires forall k | 0 <= k < |t| :: t[k].length > 0
    ensures IndexOf(t, t[i].address) == i
  {
    EarlierIsLower(t, start, IndexOf(t, t[i].address), i);
  }

  /** No block ends at or above the limit once the new one behind the last does not. */
  predicate RoomBehind(t: seq<Entry>, start: nat, size: nat, align: nat) {
    (if t == [] then start else Behind(t[|t| - 1], align)) + size < LIMIT
  }

  lemma NewEntryBelowLimit(t: seq<Entry>, start: nat, size: nat, align: nat)
    requires WellPlaced(t, start) && RoomBehind(t, start, size, align)
    ensures NewEntry(t, start, size, align).End() < LIMIT
  {
    if t != [] {
      var i := FirstFit(t, 0, size, align);
      BehindIsAfter(t[|t| - 1], align);
      if i + 1 < |t| { assert t[i + 1].End() <= t[|t| - 1].End(); }
    }
  }

  lemma AllocFacts(t: seq<Entry>, start: nat, size: nat, align: nat)
    requires WellPlaced(t, start) && RoomBehind(t, start, size, align)
    ensures var u := Alloc(t, start, size, align);
            && |u| == |t| + 1 && WellPlaced(u, start)
            && TotalLength(u) == TotalLength(t) + size
            && NewEntry(t, start, size, align).End() < LIMIT
  {
    NewEntryBelowLimit(t, start, size, align);
    AllocWellPlaced(t, start, size, align);
    TotalOfInsert(t, NewIndex(t, size, align), NewEntry(t, start, size, align));
  }

  lemma RemoveFacts(t: seq<Entry>, start: nat, i: nat)
    requires WellPlaced(t, start) && i < |t|
    ensures var u := RemoveAt(t, i);
            |u| == |t| - 1 && WellPlaced(u, start) && TotalLength(u) == TotalLength(t) - t[i].length
  {
    TotalOfRemove(t, i);
    RemoveWellPlaced(t, start, i);
  }

  // ------------------------------------------------------- where first fit puts a block

  /** A block fits behind entry i exactly if putting it there keeps the table in order and disjoint. */
  lemma FitsExactly(t: seq<Entry>, start: nat, i: nat, size: nat, align: nat)
    requires WellPlaced(t, start) && i < |t|
    ensures FitsBehind(t, i, size, align) <==>
            WellPlaced(InsertAt(t, i + 1, Entry(Behind(t[i], align), size)), start)
  {
    var e := Entry(Behind(t[i], align), size);
    var u := InsertAt(t, i + 1, e);
    BehindIsAfter(t[i], align);
    if FitsBehind(t, i, size, align) {
      InsertWellPlaced(t, start, i + 1, e);
    } else {
      assert u[i + 1] == e && u[i + 2] == t[i + 1];
    }
  }

  /** The bytes from a on overlap no block. */
  predicate Vacant(t: seq<Entry>, a: nat, size: nat) {
    forall j | 0 <= j < |t| :: t[j].End() <= a || a + size <= t[j].address
  }

  /** Alignments are powers of two, or 0 for none. */
  ghost predicate Alignment(align: nat, k: nat) {
    align == 0 || (k <= 32 && align == Pow2(k))
  }

  predicate AlignedTo(a: nat, align: nat) {
    align == 0 || a % align == 0
  }

  lemma BehindIsLeast(e: Entry, align: nat, k: nat, a: nat)
    requires Alignment(align, k) && e.End() <= a && AlignedTo(a, align)
    ensures Behind(e, align) <= a
  {
    if align != 0 { AlignIsCeiling(e.End(), k); }
  }

  lemma BehindIsAligned(e: Entry, align: nat, k: nat)
    requires Alignment(align, k)
    ensures AlignedTo(Behind(e, align), align) && e.End() <= Behind(e, align)
  {
    BehindIsAfter(e, align);
    if align != 0 { AlignIsCeiling(e.End(), k); }
  }

  /** The last entry that ends at or before a; entry 0 does. */
  lemma LastBefore(t: seq<Entry>, a: nat) returns (j: nat)
    requires t != [] && t[0].End() <= a
    ensures j < |t| && t[j].End() <= a && (j + 1 < |t| ==> a < t[j + 1].End())
  {
    j := 0;
    while j + 1 < |t| && t[j + 1].End() <= a
      invariant j < |t| && t[j].End() <= a
    {
      j := j + 1;
    }
  }

  lemma VacantFits(t: seq<Entry>, start: nat, size: nat, align: nat, k: nat, a: nat)
    requires WellPlaced(t, start) && t != [] && Alignment(align, k)
    requires t[0].End() <= a && AlignedTo(a, align) && Vacant(t, a, size)
    ensures NewEntry(t, start, size, align).address <= a
  {
    var j := LastBefore(t, a);
    var f := FirstFit(t, 0, size, align);
    BehindIsLeast(t[j], align, k, a);
    assert FitsBehind(t, j, size, align);
    assert f <= j;
    assert f < j ==> t[f].End() <= t[j].address;
    BehindIsLeast(t[f], align, k, a);
  }

  lemma NewIsVacant(t: seq<Entry>, start: nat, size: nat, align: nat)
    requires WellPlaced(t, start) && t != []
    ensures Vacant(t, NewEntry(t, start, size, align).address, size)
  {
    var f, e := FirstFit(t, 0, size, align), NewEntry(t, start, size, align);
    BehindIsAfter(t[f], align);
    forall j | 0 <= j < |t|
      ensures t[j].End() <= e.address || e.address + size <= t[j].address
    {
      if j < f { assert t[j].End() <= t[f].address; }
      if f + 1 < j { assert t[f + 1].End() <= t[j].address; }
    }
  }

  /** A new block gets the lowest aligned address behind the first block at which it overlaps nothing. */
  lemma LowestPlace(t: seq<Entry>, start: nat, size: nat, align: nat, k: nat)
    requires WellPlaced(t, start) && t != [] && Alignment(align, k)
    ensures var a := NewEntry(t, start, size, align).address;
            && t[0].End() <= a && AlignedTo(a, align) && Vacant(t, a, size)
            && forall b: nat | t[0].End() <= b && AlignedTo(b, align) && Vacant(t, b, size) :: a <= b
  {
    var f := FirstFit(t, 0, size, align);
    BehindIsAligned(t[f], align, k);
    assert f > 0 ==> t[0].End() <= t[f].address;
    NewIsVacant(t, start, size, align);
    forall b: nat | t[0].End() <= b && AlignedTo(b, align) && Vacant(t, b, size)
      ensures NewEntry(t, start, size, align).address <= b
    {
      VacantFits(t, start, size, align, k, b);
    }
  }

  /** kfree of a block, then kmalloc of its size: the same address, unless a lower one takes the block now. */
  lemma FreedPlaceReused(t: seq<Entry>, start: nat, i: nat, align: nat, k: nat)
    requires WellPlaced(t, start) && 0 < i < |t| && Alignment(align, k) && AlignedTo(t[i].address, align)
    ensures var u, size := RemoveAt(t, i), t[i].length;
            var a := NewEntry(u, start, size, align).address;
            && a <= t[i].address
            && (a == t[i].address <==>
                  forall b: nat | t[0].End() <= b < t[i].address && AlignedTo(b, align) :: !Vacant(u, b, size))
  {
    var u, size := RemoveAt(t, i), t[i].length;
    RemoveWellPlaced(t, start, i);
    assert u[0] == t[0];
    LowestPlace(u, start, size, align, k);
    assert t[0].End() <= t[i].address;
    assert Vacant(u, t[i].address, size) by {
      forall j | 0 <= j < |u|
        ensures u[j].End() <= t[i].address || t[i].address + size <= u[j].address
      {
        if j < i { assert u[j] == t[j]; } else { assert u[j] == t[j + 1]; }
      }
    }
  }

  // ------------------------------------------------------- blocks and pages

  /** Whether a block reaches into virtual page p. */
  predicate Touches(e: Entry, p: nat) {
    e.address / 4096 <= p < (e.End() + 4095) / 4096
  }

  /** No block reaches into page p. */
  ghost predicate Untouched(t: seq<Entry>, p: nat) {
    forall j {:trigger Touches(t[j], p)} | 0 <= j < |t| :: !Touches(t[j], p)
  }

  /** The rounded-outwards bounds that the code compares an address with. */
  lemma PageRange(e: Entry, address: nat)
    ensures Touches(e, address / 4096)
            <==> e.address - e.address % 4096 <= address < Align(e.End(), 4096)
  {
    PageCeiling(e.End());
    var q := address / 4096;
    assert address == 4096 * q + address % 4096;
    assert e.address - e.address % 4096 == 4096 * (e.address / 4096);
  }

  /** ALIGN to a page is a multiplication by the rounded-up page count. */
  lemma PageCeiling(v: nat)
    ensures Align(v, 4096) == 4096 * ((v + 4095) / 4096)
  {
    Pow2OfWord();
    AlignIsMultiple(v, 12);
    AlignBounds(v, 4096);
    var a := Align(v, 4096);
    assert a == 4096 * (a / 4096);
  }

  /** Every byte of a block lies in a page the block touches. */
  lemma BytesAreTouched(e: Entry, address: nat)
    requires e.address <= address < e.End()
    ensures Touches(e, address / 4096)
  {
  }
}
