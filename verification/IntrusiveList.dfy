/**
  The circular doubly linked list of kernel/src/lib/list.c, whose links live
  in the items, proved to represent a sequence of items.
 */
module IntrusiveList {
  class Item {
    var prev: Item?
    var next: Item?
    var list: List?

    constructor ()
      ensures list == null
    {
      prev, next, list := null, null, null;
    }
  }

  function Succ(i: nat, n: nat): nat { if i + 1 == n then 0 else i + 1 }

  function Pred(i: nat, n: nat): int { if i == 0 then n - 1 else i - 1 }

  ghost predicate Distinct(s: seq<Item>) {
    forall i, j | 0 <= i < j < |s| :: s[i] != s[j]
  }

  /** Item i points to its neighbours on the circle s. */
  ghost predicate Linked(s: seq<Item>, i: nat)
    requires i < |s|
    reads s[i]
  {
    s[i].next == s[Succ(i, |s|)] && s[i].prev == s[Pred(i, |s|)]
  }

  ghost predicate Circle(s: seq<Item>)
    reads s
  {
    forall i | 0 <= i < |s| :: Linked(s, i)
  }

  ghost function Without(s: seq<Item>, i: nat): seq<Item>
    requires i < |s|
  {
    s[..i] + s[i + 1..]
  }

  twostate lemma AppendedCircle(s: seq<Item>, new item: Item)
    requires old(Circle(s)) && Distinct(s) && item !in s
    requires s == [] ==> item.next == item && item.prev == item
    requires s != [] ==> item.next == s[0] && item.prev == s[|s| - 1]
    requires s != [] ==> s[|s| - 1].next == item && s[0].prev == item
    requires forall i | 0 <= i < |s| - 1 :: s[i].next == old(s[i].next)
    requires forall i | 1 <= i < |s| :: s[i].prev == old(s[i].prev)
    ensures Circle(s + [item])
  {
    var t := s + [item];
    forall i | 0 <= i < |t|
      ensures Linked(t, i)
    {
      if i < |s| { assert old(Linked(s, i)); }
    }
  }

  twostate lemma RemovedCircle(s: seq<Item>, new i: nat)
    requires old(Circle(s)) && Distinct(s) && i < |s|
    requires |s| > 1 ==> s[Succ(i, |s|)].prev == s[Pred(i, |s|)]
    requires |s| > 1 ==> s[Pred(i, |s|)].next == s[Succ(i, |s|)]
    requires forall k | 0 <= k < |s| && k != Succ(i, |s|) && k != i :: s[k].prev == old(s[k].prev)
    requires forall k | 0 <= k < |s| && k != Pred(i, |s|) && k != i :: s[k].next == old(s[k].next)
    ensures Circle(Without(s, i)) && Distinct(Without(s, i))
  {
    var t := Without(s, i);
    forall k | 0 <= k < |t|
      ensures Linked(t, k)
    {
      var k' := if k < i then k else k + 1;
      assert t[k] == s[k'] && old(Linked(s, k'));
    }
  }

  class List {
    var first: Item?
    var count: nat
    /** The items in order, starting at first. */
    ghost var items: seq<Item>

    ghost predicate Valid()
      reads this, items
    {
      && count == |items|
      && first == (if items == [] then null else items[0])
      && Distinct(items) && Circle(items)
      && (forall i | 0 <= i < |items| :: items[i].list == this)
    }

    /** list_init */
    constructor ()
      ensures Valid() && items == []
    {
      first, count, items := null, 0, [];
    }

    /** list_add: appends at the tail, unless the item was ever put on a list. */
    method Add(item: Item)
      requires Valid()
      modifies this, items, item
      ensures Valid() && item.list == (if old(item.list) == null then this else old(item.list))
      ensures items == if old(item.list) == null then old(items) + [item] else old(items)
      ensures forall x | x in old(items) :: x.list == old(x.list)
      ensures old(item.list) != null ==> item.next == old(item.next) && item.prev == old(item.prev)
    {
      if item.list == null {
        assert item !in items;
        if first != null {
          assert items[0].prev == items[|items| - 1] by { assert Linked(items, 0); }
          item.list := this;
          item.next := first;
          item.prev := first.prev;
          item.prev.next := item;
          item.next.prev := item;
        } else {
          item.list := this;
          item.next := item;
          item.prev := item;
          first := item;
        }
        count := count + 1;
        items := items + [item];
        AppendedCircle(old(items), item);
      }
    }

    /** list_remove: takes a member out and leaves its own fields alone. */
    static method Remove(item: Item, ghost i: nat)
      requires item.list != null && item.list.Valid()
      requires i < |item.list.items| && item.list.items[i] == item
      modifies item.list, item.list.items
      ensures item.list == old(item.list) && item.list.Valid()
      ensures item.next == old(item.next) && item.prev == old(item.prev)
      ensures item.list.items == Without(old(item.list.items), i)
      ensures forall x | x in old(item.list.items) :: x.list == old(x.list)
    {
      var l := item.list;
      ghost var s := l.items;
      assert Linked(s, i);
      assert s[0] == item <==> i == 0;
      if l.first == item {
        l.first := item.next;
        if l.first == item {
          l.first := null;
        }
      }
      item.next.prev := item.prev;
      item.prev.next := item.next;
      l.count := l.count - 1;
      l.items := Without(s, i);
      RemovedCircle(s, i);
    }

    /** Following next from the first item visits the sequence. */
    method WalkForward() returns (walk: seq<Item>)
      requires Valid()
      ensures walk == items
    {
      walk := [];
      var at, k := first, 0;
      while k < count
        invariant 0 <= k <= count && walk == items[..k]
        invariant count > 0 ==> at == items[if k == count then 0 else k]
      {
        assert Linked(items, k);
        walk := walk + [at];
        at := at.next;
        k := k + 1;
      }
    }

    /** Following prev from the last item visits it in mirror image. */
    method WalkBackward() returns (walk: seq<Item>)
      requires Valid()
      ensures |walk| == |items| && forall i | 0 <= i < |walk| :: walk[i] == items[|items| - 1 - i]
    {
      walk := [];
      if first == null { return; }
      assert Linked(items, 0);
      var at, k := first.prev, 0;
      while k < count
        invariant 0 <= k <= count && |walk| == k
        invariant forall i | 0 <= i < k :: walk[i] == items[|items| - 1 - i]
        invariant at == items[if k == count then count - 1 else count - 1 - k]
      {
        assert Linked(items, count - 1 - k);
        walk := walk + [at];
        at := at.prev;
        k := k + 1;
      }
    }
  }

  // ------------------------------------------------------- runs

  datatype Op = Put(item: Item) | Take(item: Item)

  /** A sequence of items and the items that were ever on the list. */
  datatype State = State(items: seq<Item>, tagged: set<Item>)

  ghost function IndexOf(s: seq<Item>, x: Item): (i: nat)
    requires x in s
    ensures i < |s| && s[i] == x
  {
    if s[0] == x then 0 else IndexOf(s[1..], x) + 1
  }

  ghost function Step(st: State, op: Op): State
    requires Legal(st, op)
  {
    match op
    case Put(x) => if x in st.tagged then st else State(st.items + [x], st.tagged + {x})
    case Take(x) => State(Without(st.items, IndexOf(st.items, x)), st.tagged)
  }

  /** Only members are removed. */
  ghost predicate Legal(st: State, op: Op) { op.Take? ==> op.item in st.items }

  ghost predicate LegalRun(st: State, ops: seq<Op>)
    decreases |ops|
  {
    ops == [] || (Legal(st, ops[0]) && LegalRun(Step(st, ops[0]), ops[1..]))
  }

  ghost function Final(st: State, ops: seq<Op>): State
    requires LegalRun(st, ops)
    decreases |ops|
  {
    if ops == [] then st else Final(Step(st, ops[0]), ops[1..])
  }

  /** The state of the list l, as far as the items in scope go. */
  ghost predicate Represents(l: List, scope: set<Item>, st: State)
    reads l, l.items, scope
  {
    && l.Valid() && l.items == st.items
    && (forall x | x in st.items :: x in scope)
    && (forall x | x in scope :: x.list == if x in st.tagged then l else null)
  }

  method Apply(l: List, op: Op, ghost scope: set<Item>, ghost st: State)
    requires Represents(l, scope, st) && Legal(st, op) && op.item in scope
    modifies l, scope
    ensures Represents(l, scope, Step(st, op))
  {
    match op {
      case Put(x) =>
        l.Add(x);
      case Take(x) =>
        List.Remove(x, IndexOf(st.items, x));
    }
  }

  /** Every run of adds and removes of members does to the list what it does to the sequence. */
  method Run(l: List, ops: seq<Op>, ghost scope: set<Item>, ghost st: State)
    requires Represents(l, scope, st) && LegalRun(st, ops)
    requires forall k | 0 <= k < |ops| :: ops[k].item in scope
    modifies l, scope
    ensures Represents(l, scope, Final(st, ops))
    decreases |ops|
  {
    if ops != [] {
      Apply(l, ops[0], scope, st);
      Run(l, ops[1..], scope, Step(st, ops[0]));
    }
  }

  lemma {:induction false} LegalRunSplit(st: State, ops: seq<Op>, op: Op)
    requires LegalRun(st, ops) && Legal(Final(st, ops), op)
    ensures LegalRun(st, ops + [op]) && Final(st, ops + [op]) == Step(Final(st, ops), op)
    decreases |ops|
  {
    if ops != [] {
      assert (ops + [op])[1..] == ops[1..] + [op];
      LegalRunSplit(Step(st, ops[0]), ops[1..], op);
    } else {
      assert (ops + [op])[1..] == [];
    }
  }

  /** Once put, an item stays tagged: putting it again after any run changes nothing. */
  lemma {:induction false} PutAgain(st: State, x: Item, ops: seq<Op>)
    requires x in st.tagged && LegalRun(st, ops)
    ensures x in Final(st, ops).tagged
    ensures LegalRun(st, ops + [Put(x)]) && Final(st, ops + [Put(x)]) == Final(st, ops)
    decreases |ops|
  {
    if ops != [] {
      PutAgain(Step(st, ops[0]), x, ops[1..]);
    }
    LegalRunSplit(st, ops, Put(x));
  }
}
