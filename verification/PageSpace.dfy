/**
  The mapped pages and page tables, the byte counter and the number of free
  frames: what decides how a request for frames ends.
 */
module PageSpace {
  import opened PageSets

  // ------------------------------------------------------- asking for frames

  /** How a request for frames ends: all there, in the endless loop, or with frame 0. */
  datatype Got = Enough | Halts | NoFrame

  /** Asking for k frames one by one. */
  function Verdict(used: int, free: int, size: nat, k: nat): Got
    decreases k
  {
    if k == 0 then Enough
    else if used >= size then Halts
    else if free <= 0 then NoFrame
    else Verdict(used + 4096, free - 1, size, k - 1)
  }

  /** The three endings in closed form. */
  lemma {:induction false} VerdictExactly(used: int, free: nat, size: nat, k: nat)
    ensures Verdict(used, free, size, k) == Enough <==> k == 0 || (k <= free && used + 4096 * (k - 1) < size)
    ensures Verdict(used, free, size, k) == NoFrame <==> free < k && used + 4096 * free < size
    decreases k
  {
    if k > 0 && used < size && free > 0 { VerdictExactly(used + 4096, free - 1, size, k - 1); }
  }

  lemma {:induction false} VerdictAdd(used: int, free: int, size: nat, a: nat, b: nat)
    requires Verdict(used, free, size, a) == Enough
    ensures Verdict(used, free, size, a + b) == Verdict(used + 4096 * a, free - a, size, b)
    decreases a
  {
    if a > 0 { VerdictAdd(used + 4096, free - 1, size, a - 1, b); }
  }

  lemma {:induction false} VerdictMore(used: int, free: int, size: nat, a: nat, b: nat)
    requires a <= b && Verdict(used, free, size, a) != Enough
    ensures Verdict(used, free, size, b) == Verdict(used, free, size, a)
    decreases a
  {
    if used < size && free > 0 { VerdictMore(used + 4096, free - 1, size, a - 1, b - 1); }
  }

  /** A request for k frames, from one counter and number of free frames to the next. */
  ghost predicate Took(used: int, free: int, size: nat, k: nat, got: Got, used': int, free': int) {
    got == Verdict(used, free, size, k) && (got.Enough? ==> used' == used + 4096 * k && free' == free - k)
  }

  lemma TookBoth(used: int, free: int, size: nat, a: nat, u1: int, f1: int, b: nat, got: Got, u2: int, f2: int)
    requires Took(used, free, size, a, Enough, u1, f1) && Took(u1, f1, size, b, got, u2, f2)
    ensures Took(used, free, size, a + b, got, u2, f2)
  {
    VerdictAdd(used, free, size, a, b);
  }

  // ------------------------------------------------------- the mapping loop

  /** The keys of the page map and of its page tables, the byte counter and the number of free frames. */
  datatype Space = Space(tables: set<nat>, pages: set<nat>, used: int, free: int)

  /** The mapping loops run one page past the rounded-up size. */
  function PageCount(size: nat): nat { (size + 4095) / 4096 + 1 }

  function WithPages(s: Space, first: nat, n: nat): Space {
    var k := Need(s.tables, s.pages, first, n);
    Space(TablesAfter(s.tables, s.pages, first, n), PagesAfter(s.pages, first, n), s.used + 4096 * k, s.free - k)
  }

  /** How mapping n pages ends. */
  function GotPages(s: Space, size: nat, first: nat, n: nat): Got {
    Verdict(s.used, s.free, size, Need(s.tables, s.pages, first, n))
  }

  function WithoutPage(s: Space, v: nat): Space {
    Space(s.tables, s.pages - {v}, s.used - 4096, s.free + 1)
  }

  /** The same for the single page v. */
  function WithPage(s: Space, v: nat): Space {
    var k := NeedOne(s.tables, s.pages, v);
    Space(if v in s.pages then s.tables else s.tables + {v / 1024}, s.pages + {v}, s.used + 4096 * k, s.free - k)
  }

  function GotPage(s: Space, size: nat, v: nat): Got {
    Verdict(s.used, s.free, size, NeedOne(s.tables, s.pages, v))
  }

  /** The loop's next page. */
  lemma NextPage(s: Space, size: nat, first: nat, k: nat)
    requires GotPages(s, size, first, k) == Enough
    ensures var now := WithPages(s, first, k);
            && GotPage(now, size, first + k) == GotPages(s, size, first, k + 1)
            && WithPage(now, first + k) == WithPages(s, first, k + 1)
  {
    PagesAfterHolds(s.pages, first, k, first + k);
    var one := NeedOne(TablesAfter(s.tables, s.pages, first, k), s.pages, first + k);
    VerdictAdd(s.used, s.free, size, Need(s.tables, s.pages, first, k), one);
  }

  lemma PagesFail(s: Space, size: nat, first: nat, k: nat, n: nat)
    requires k <= n && GotPages(s, size, first, k) != Enough
    ensures GotPages(s, size, first, n) == GotPages(s, size, first, k)
  {
    NeedGrows(s.tables, s.pages, first, k, n);
    VerdictMore(s.used, s.free, size, Need(s.tables, s.pages, first, k), Need(s.tables, s.pages, first, n));
  }

  // ------------------------------------------------------- conservation

  /** Counted bytes and free frames, which no operation changes together. */
  function Sum(s: Space): int { s.used + 4096 * s.free }

  lemma {:induction false} VerdictWithSum(used: int, free: int, size: nat, k: nat)
    requires used + 4096 * free >= size
    ensures Verdict(used, free, size, k) != NoFrame
    decreases k
  {
    if k > 0 && used < size && free > 0 { VerdictWithSum(used + 4096, free - 1, size, k - 1); }
  }
}
