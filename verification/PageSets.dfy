/** The frames that mapping a stretch of virtual memory takes: pages and page tables. */
module PageSets {
  /** The mapped pages once the pages first .. first+n-1 are mapped too. */
  function PagesAfter(pages: set<nat>, first: nat, n: nat): set<nat> {
    if n == 0 then pages else PagesAfter(pages, first, n - 1) + {first + n - 1}
  }

  /** The page tables by then: a page that is not mapped yet needs its table. */
  function TablesAfter(tables: set<nat>, pages: set<nat>, first: nat, n: nat): set<nat> {
    if n == 0 then tables
    else
      var t, v := TablesAfter(tables, pages, first, n - 1), first + n - 1;
      if v in pages then t else t + {v / 1024}
  }

  /** The frames one page takes. */
  function NeedOne(tables: set<nat>, pages: set<nat>, v: nat): nat {
    if v in pages then 0 else if v / 1024 in tables then 1 else 2
  }

  function Need(tables: set<nat>, pages: set<nat>, first: nat, n: nat): nat {
    if n == 0 then 0
    else Need(tables, pages, first, n - 1) + NeedOne(TablesAfter(tables, pages, first, n - 1), pages, first + n - 1)
  }

  lemma {:induction false} PagesAfterHolds(pages: set<nat>, first: nat, n: nat, p: nat)
    ensures p in PagesAfter(pages, first, n) <==> p in pages || first <= p < first + n
    decreases n
  {
    if n > 0 { PagesAfterHolds(pages, first, n - 1, p); }
  }

  lemma {:induction false} TablesAfterHolds(tables: set<nat>, pages: set<nat>, first: nat, n: nat, d: nat)
    ensures d in TablesAfter(tables, pages, first, n) <==>
            d in tables || exists p :: first <= p < first + n && p !in pages && p / 1024 == d
    decreases n
  {
    if n > 0 {
      TablesAfterHolds(tables, pages, first, n - 1, d);
      assert first + n - 1 !in pages && (first + n - 1) / 1024 == d ==>
          exists p :: first <= p < first + n && p !in pages && p / 1024 == d;
    }
  }

  /** The pages of the stretch that are not mapped yet. */
  function NewPages(pages: set<nat>, first: nat, n: nat): set<nat> {
    if n == 0 then {}
    else
      var s, v := NewPages(pages, first, n - 1), first + n - 1;
      if v in pages then s else s + {v}
  }

  lemma {:induction false} NewPagesHold(pages: set<nat>, first: nat, n: nat, p: nat)
    ensures p in NewPages(pages, first, n) <==> first <= p < first + n && p !in pages
  {
    if n > 0 { NewPagesHold(pages, first, n - 1, p); }
  }

  /** The page tables they lie in and that do not exist yet. */
  function NewTables(tables: set<nat>, pages: set<nat>, first: nat, n: nat): set<nat> {
    if n == 0 then {}
    else
      var s, v := NewTables(tables, pages, first, n - 1), first + n - 1;
      if v in pages || v / 1024 in tables then s else s + {v / 1024}
  }

  lemma {:induction false} NewTablesHold(tables: set<nat>, pages: set<nat>, first: nat, n: nat, d: nat)
    ensures d in NewTables(tables, pages, first, n) <==> d in TablesAfter(tables, pages, first, n) && d !in tables
  {
    if n > 0 { NewTablesHold(tables, pages, first, n - 1, d); }
  }

  lemma NewPagesCount(pages: set<nat>, first: nat, n: nat)
    requires n > 0
    ensures var v := first + n - 1;
            |NewPages(pages, first, n)| == |NewPages(pages, first, n - 1)| + (if v in pages then 0 else 1)
  {
    NewPagesHold(pages, first, n - 1, first + n - 1);
  }

  lemma NewTablesCount(tables: set<nat>, pages: set<nat>, first: nat, n: nat, d: nat)
    requires n > 0 && d == (first + n - 1) / 1024
    ensures var known := first + n - 1 in pages || d in TablesAfter(tables, pages, first, n - 1);
            |NewTables(tables, pages, first, n)| == |NewTables(tables, pages, first, n - 1)| + (if known then 0 else 1)
  {
    var s := NewTables(tables, pages, first, n - 1);
    NewTablesHold(tables, pages, first, n - 1, d);
    OnlyGrow(tables, pages, first, n - 1);
    if d in s { assert s + {d} == s; }
  }

  /** The frames needed: one for every page and one for every page table that is new. */
  lemma {:induction false} NeedCounts(tables: set<nat>, pages: set<nat>, first: nat, n: nat)
    ensures Need(tables, pages, first, n) == |NewPages(pages, first, n)| + |NewTables(tables, pages, first, n)|
  {
    if n > 0 {
      NeedCounts(tables, pages, first, n - 1);
      NewPagesCount(pages, first, n);
      NewTablesCount(tables, pages, first, n, (first + n - 1) / 1024);
    }
  }

  lemma {:induction false} OnlyGrow(tables: set<nat>, pages: set<nat>, first: nat, n: nat)
    ensures tables <= TablesAfter(tables, pages, first, n)
  {
    if n > 0 { OnlyGrow(tables, pages, first, n - 1); }
  }

  /** A longer stretch needs no less. */
  lemma {:induction false} NeedGrows(tables: set<nat>, pages: set<nat>, first: nat, k: nat, n: nat)
    requires k <= n
    ensures Need(tables, pages, first, k) <= Need(tables, pages, first, n)
    decreases n
  {
    if k < n { NeedGrows(tables, pages, first, k, n - 1); }
  }

  /** Mapped pages spare a stretch at most as many frames as there are of them. */
  lemma {:induction false} NewPagesAtLeast(pages: set<nat>, first: nat, n: nat)
    ensures n <= |NewPages(pages, first, n)| + |Old(pages, first, n)| && Old(pages, first, n) <= pages
  {
    if n > 0 {
      NewPagesAtLeast(pages, first, n - 1);
      NewPagesCount(pages, first, n);
      OldHolds(pages, first, n - 1, first + n - 1);
    }
  }

  /** The pages of the stretch that are mapped already. */
  function Old(pages: set<nat>, first: nat, n: nat): set<nat> {
    if n == 0 then {}
    else
      var s, v := Old(pages, first, n - 1), first + n - 1;
      if v in pages then s + {v} else s
  }

  lemma {:induction false} OldHolds(pages: set<nat>, first: nat, n: nat, p: nat)
    ensures p in Old(pages, first, n) <==> first <= p < first + n && p in pages
  {
    if n > 0 { OldHolds(pages, first, n - 1, p); }
  }

  lemma SubsetSize(a: set<nat>, b: set<nat>)
    requires a <= b
    ensures |a| <= |b|
  {
    assert b == a + (b - a);
  }

  lemma NeedAtLeast(tables: set<nat>, pages: set<nat>, first: nat, n: nat)
    ensures n <= Need(tables, pages, first, n) + |pages|
  {
    NeedCounts(tables, pages, first, n);
    NewPagesAtLeast(pages, first, n);
    SubsetSize(Old(pages, first, n), pages);
  }
}
