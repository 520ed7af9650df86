/**
  The mutating side of rust/noct-diskman/src/lib.rs, and generate_new_id with
  the exact condition under which the id it makes up is new.
 */
module DiskManager {
  import opened NumberText
  import opened DecimalText
  import opened DiskRegistry

  class Manager {
    var drives: Drives

    constructor ()
      ensures drives == [] && Sound(drives)
    {
      drives := [];
    }

    /** remove_partitions: extract_if drops the disk's partitions one by one. */
    method RemovePartitions(id: string)
      modifies this
      ensures drives == WithoutParts(old(drives), id)
    {
      var kept: Drives := [];
      var k := 0;
      while k < |drives|
        invariant 0 <= k <= |drives| && drives == old(drives)
        invariant kept == WithoutParts(drives[..k], id)
      {
        assert drives[..k + 1][..k] == drives[..k];
        if !IsPartOf(drives[k], id) {
          kept := kept + [drives[k]];
        }
        k := k + 1;
      }
      assert drives[..k] == drives;
      drives := kept;
    }

    /** rescan_disk_for_partitions */
    method RescanDisk(id: string, recs: seq<Record>)
      modifies this
      ensures drives == Rescan(old(drives), id, recs)
      ensures old(Sound(drives) && WholeIn(drives, id)) ==> Sound(drives)
    {
      ghost var before := drives;
      RemovePartitions(id);
      if Find(drives, id) < |drives| {
        var found: Drives := [];
        var n := 0;
        while n < |recs|
          invariant 0 <= n <= |recs|
          invariant found == NewParts(id, recs)[..n]
        {
          var from, to := recs[n].start * 512, (recs[n].start + recs[n].count) * 512;
          found := found + [Part(PartId(id, n + 1), id, from, to)];
          n := n + 1;
        }
        assert NewParts(id, recs)[..n] == NewParts(id, recs);
        drives := drives + found;
      }
      if Sound(before) && WholeIn(before, id) {
        RescanKeeps(before, id, recs);
      }
    }

    /** register_drive */
    method RegisterDrive(id: string, recs: seq<Record>)
      modifies this
      ensures drives == Register(old(drives), id, recs)
      ensures old(Sound(drives) && !WholeIn(drives, id)) && '.' !in id ==> Sound(drives)
    {
      ghost var before := drives;
      drives := drives + [Whole(id)];
      RescanDisk(drives[|drives| - 1].id, recs);
      if Sound(before) && !WholeIn(before, id) && '.' !in id {
        RegisterKeeps(before, id, recs);
      }
    }
  }

  // ------------------------------------------------------- generated ids

  /** The part of a text before its first dot: split('.').nth(0) */
  function FirstSection(s: string): string {
    if s == [] || s[0] == '.' then [] else [s[0]] + FirstSection(s[1..])
  }

  /** The number generate_new_id reads out of an id that starts with the driver's name. */
  function NumberIn(id: string, driver: string): nat
    requires driver <= id
  {
    ParseOrZero(FirstSection(id[|driver|..]))
  }

  /** One more than the number of the last drive whose id starts with the driver's name, or 0. */
  function NextNumber(ds: Drives, driver: string): nat {
    if ds == [] then 0
    else if driver <= ds[|ds| - 1].id then NumberIn(ds[|ds| - 1].id, driver) + 1
    else NextNumber(ds[..|ds| - 1], driver)
  }

  /** generate_new_id */
  function GenerateId(ds: Drives, driver: string): string {
    driver + Dec(NextNumber(ds, driver))
  }

  /** Disk number n of the driver, or one of its partitions. */
  ghost predicate Belongs(d: Drive, driver: string, n: nat) {
    if d.Whole? then d.id == driver + Dec(n)
    else d.parent == driver + Dec(n) && exists j: nat :: d.id == PartId(d.parent, j)
  }

  /**
    The driver has exactly the disks 0 .. k-1, and every id that starts with
    its name belongs to one of them.
   */
  ghost predicate Numbered(ds: Drives, driver: string, k: nat) {
    && (forall n | 0 <= n < k :: WholeIn(ds, driver + Dec(n)))
    && (forall i | 0 <= i < |ds| && driver <= ds[i].id :: exists n :: 0 <= n < k && Belongs(ds[i], driver, n))
  }

  lemma {:induction false} FirstSectionOf(s: string, rest: string)
    requires '.' !in s && (rest == [] || rest[0] == '.')
    ensures FirstSection(s + rest) == s
    decreases |s|
  {
    if s != [] {
      assert (s + rest)[1..] == s[1..] + rest;
      FirstSectionOf(s[1..], rest);
    } else {
      assert s + rest == rest;
    }
  }

  lemma NoDotInDec(n: nat)
    ensures '.' !in Dec(n)
  {
    forall k | 0 <= k < |Dec(n)|
      ensures Dec(n)[k] != '.'
    {
      assert IsDigit(Dec(n)[k]);
    }
  }

  lemma NumberInText(id: string, driver: string, n: nat, rest: string)
    requires id == driver + (Dec(n) + rest) && n < 0x1_0000_0000
    requires rest == [] || rest[0] == '.'
    ensures driver <= id && NumberIn(id, driver) == n
  {
    NoDotInDec(n);
    ParseOfDec(n);
    FirstSectionOf(Dec(n), rest);
    assert id[|driver|..] == Dec(n) + rest;
  }

  lemma PartIdText(driver: string, n: nat, j: nat)
    ensures PartId(driver + Dec(n), j) == driver + (Dec(n) + ("." + Dec(j)))
  {
  }

  /** The number read out of an id is the number of the disk it belongs to. */
  lemma NumberOfBelonging(d: Drive, driver: string, n: nat)
    requires Belongs(d, driver, n) && n < 0x1_0000_0000
    ensures driver <= d.id && NumberIn(d.id, driver) == n
  {
    if d.Whole? {
      assert Dec(n) + [] == Dec(n);
      NumberInText(d.id, driver, n, []);
    } else {
      var j: nat :| d.id == PartId(d.parent, j);
      PartIdText(driver, n, j);
      NumberInText(d.id, driver, n, "." + Dec(j));
    }
  }

  /** The next number is one more than the number of some disk the driver has. */
  lemma {:induction false} NextNumberAtMost(ds: Drives, driver: string, k: nat)
    requires k <= 0xFFFF_FFFF
    requires forall i | 0 <= i < |ds| && driver <= ds[i].id :: exists n :: 0 <= n < k && Belongs(ds[i], driver, n)
    ensures NextNumber(ds, driver) <= k
    decreases |ds|
  {
    if ds != [] {
      var last := |ds| - 1;
      if driver <= ds[last].id {
        var n :| 0 <= n < k && Belongs(ds[last], driver, n);
        NumberOfBelonging(ds[last], driver, n);
      } else {
        NextNumberAtMost(ds[..last], driver, k);
      }
    }
  }

  /** The last drive whose id starts with the driver's name, or -1. */
  function LastOf(ds: Drives, driver: string): (i: int)
    ensures -1 <= i < |ds| && (i >= 0 ==> driver <= ds[i].id)
    ensures forall j | i < j < |ds| :: !(driver <= ds[j].id)
  {
    if ds == [] then -1
    else if driver <= ds[|ds| - 1].id then |ds| - 1
    else LastOf(ds[..|ds| - 1], driver)
  }

  lemma {:induction false} NextNumberOfLast(ds: Drives, driver: string)
    ensures var i := LastOf(ds, driver);
            NextNumber(ds, driver) == if i < 0 then 0 else NumberIn(ds[i].id, driver) + 1
    decreases |ds|
  {
    if ds != [] { NextNumberOfLast(ds[..|ds| - 1], driver); }
  }

  lemma GeneratedNumberFresh(ds: Drives, driver: string, k: nat)
    requires Numbered(ds, driver, k) && k <= 0xFFFF_FFFF
    ensures !WholeIn(ds, GenerateId(ds, driver)) <==> NextNumber(ds, driver) == k
  {
    var m := NextNumber(ds, driver);
    NextNumberAtMost(ds, driver, k);
    if m < k {
      assert WholeIn(ds, driver + Dec(m));
    } else if WholeIn(ds, driver + Dec(m)) {
      NumberedExcludes(ds, driver, k);
    }
  }

  /** The generated id is new exactly when the driver has no disk yet or its last drive belongs to its newest disk. */
  lemma GeneratedIdFresh(ds: Drives, driver: string, k: nat)
    requires Numbered(ds, driver, k) && k <= 0xFFFF_FFFF
    ensures !WholeIn(ds, GenerateId(ds, driver)) <==>
            k == 0 || (LastOf(ds, driver) >= 0 && Belongs(ds[LastOf(ds, driver)], driver, k - 1))
  {
    GeneratedNumberFresh(ds, driver, k);
    NextNumberOfLast(ds, driver);
    var i := LastOf(ds, driver);
    if i >= 0 {
      var n :| 0 <= n < k && Belongs(ds[i], driver, n);
      NumberOfBelonging(ds[i], driver, n);
      if k > 0 && Belongs(ds[i], driver, k - 1) { BelongsUnique(ds[i], driver, k - 1, n); }
    }
  }

  lemma NumberedExcludes(ds: Drives, driver: string, k: nat)
    requires Numbered(ds, driver, k)
    ensures !WholeIn(ds, driver + Dec(k))
  {
    if WholeIn(ds, driver + Dec(k)) {
      var i :| 0 <= i < |ds| && ds[i] == Whole(driver + Dec(k));
      var n :| 0 <= n < k && Belongs(ds[i], driver, n);
      SameNumber(driver, k, n);
    }
  }

  lemma SameNumber(driver: string, k: nat, n: nat)
    requires driver + Dec(k) == driver + Dec(n)
    ensures k == n
  {
    assert (driver + Dec(k))[|driver|..] == Dec(k);
    assert (driver + Dec(n))[|driver|..] == Dec(n);
    DecInjective(k, n);
  }

  // ------------------------------------------------------- runs of generated ids

  lemma BelongsUnique(d: Drive, driver: string, m: nat, n: nat)
    requires Belongs(d, driver, m) && Belongs(d, driver, n)
    ensures m == n
  {
    SameNumber(driver, m, n);
  }

  lemma BelongsPrefix(d: Drive, driver: string, n: nat)
    requires Belongs(d, driver, n)
    ensures driver <= d.id
  {
  }

  /** Drives of older disks come before drives of newer ones. */
  ghost predicate InOrder(ds: Drives, driver: string) {
    forall i, j, m: nat, n: nat | 0 <= i < j < |ds| && Belongs(ds[i], driver, m) && Belongs(ds[j], driver, n) :: m <= n
  }

  /** No drive of the driver has a number above k. */
  ghost predicate NumbersUpTo(ds: Drives, driver: string, k: nat) {
    forall i, m: nat | 0 <= i < |ds| && Belongs(ds[i], driver, m) :: m <= k
  }

  lemma NumberedUpTo(ds: Drives, driver: string, k: nat, c: nat)
    requires Numbered(ds, driver, k) && k <= c + 1
    ensures NumbersUpTo(ds, driver, c)
  {
    forall i, m: nat | 0 <= i < |ds| && Belongs(ds[i], driver, m)
      ensures m <= c
    {
      BelongsPrefix(ds[i], driver, m);
      var n :| 0 <= n < k && Belongs(ds[i], driver, n);
      BelongsUnique(ds[i], driver, m, n);
    }
  }

  /** In order, the last matching drive belongs to the newest disk, so the next number is right. */
  lemma {:induction false} InOrderNextNumber(ds: Drives, driver: string, k: nat)
    requires Numbered(ds, driver, k) && InOrder(ds, driver) && k <= 0xFFFF_FFFF
    ensures NextNumber(ds, driver) == k
  {
    NextNumberAtMost(ds, driver, k);
    if k > 0 {
      assert WholeIn(ds, driver + Dec(k - 1));
      var i :| 0 <= i < |ds| && ds[i] == Whole(driver + Dec(k - 1));
      assert Belongs(ds[i], driver, k - 1);
      NextNumberAtLeast(ds, driver, k, i);
    }
  }

  lemma {:induction false} NextNumberAtLeast(ds: Drives, driver: string, k: nat, i: nat)
    requires 0 < k <= 0xFFFF_FFFF && i < |ds| && Belongs(ds[i], driver, k - 1)
    requires InOrder(ds, driver)
    requires forall i | 0 <= i < |ds| && driver <= ds[i].id :: exists n :: 0 <= n < k && Belongs(ds[i], driver, n)
    ensures NextNumber(ds, driver) >= k
    decreases |ds|
  {
    var last := |ds| - 1;
    if driver <= ds[last].id {
      var n :| 0 <= n < k && Belongs(ds[last], driver, n);
      NumberOfBelonging(ds[last], driver, n);
      if i == last { BelongsUnique(ds[i], driver, k - 1, n); }
    } else {
      BelongsPrefix(ds[i], driver, k - 1);
      NextNumberAtLeast(ds[..last], driver, k, i);
    }
  }

  lemma AppendInOrder(ds: Drives, es: Drives, driver: string, c: nat)
    requires InOrder(ds, driver) && NumbersUpTo(ds, driver, c)
    requires forall i, m: nat | 0 <= i < |es| && Belongs(es[i], driver, m) :: m == c
    ensures InOrder(ds + es, driver)
  {
    var all := ds + es;
    forall i, j, m: nat, n: nat | 0 <= i < j < |all| && Belongs(all[i], driver, m) && Belongs(all[j], driver, n)
      ensures m <= n
    {
      if i < |ds| { assert all[i] == ds[i]; } else { assert all[i] == es[i - |ds|]; }
      if j < |ds| { assert all[j] == ds[j]; } else { assert all[j] == es[j - |ds|]; }
    }
  }

  lemma WithoutPartsInOrder(ds: Drives, id: string, driver: string)
    requires InOrder(ds, driver)
    ensures InOrder(WithoutParts(ds, id), driver)
  {
    var rest := WithoutParts(ds, id);
    forall k, j, m: nat, n: nat | 0 <= k < j < |rest| && Belongs(rest[k], driver, m) && Belongs(rest[j], driver, n)
      ensures m <= n
    {
      var i := WithoutPartsAt(ds, id, j);
      assert rest[k] in rest[..j];
      WithoutPartsMembers(ds[..i], id, rest[k]);
      var i' :| 0 <= i' < i && ds[..i][i'] == rest[k];
      assert Belongs(ds[i'], driver, m) && Belongs(ds[i], driver, n);
    }
  }

  lemma NewPartsBelong(id: string, recs: seq<Record>, driver: string, c: nat, i: nat)
    requires id == driver + Dec(c) && i < |recs|
    ensures Belongs(NewParts(id, recs)[i], driver, c)
  {
    assert NewParts(id, recs)[i].id == PartId(id, i + 1);
  }

  /** A name without dots in front of a partition id is in front of the disk id. */
  lemma PrefixOfPart(driver: string, id: string, n: nat)
    requires '.' !in driver && driver <= PartId(id, n)
    ensures driver <= id
  {
    var p := PartId(id, n);
    assert p[|id|] == '.';
    forall k | 0 <= k < |driver|
      ensures p[k] != '.'
    {
      assert driver[k] in driver;
    }
    assert |driver| <= |id|;
    assert p[..|driver|] == id[..|driver|];
  }

  lemma WithoutPartsUpTo(ds: Drives, id: string, driver: string, k: nat)
    requires NumbersUpTo(ds, driver, k)
    ensures NumbersUpTo(WithoutParts(ds, id), driver, k)
  {
    var rest := WithoutParts(ds, id);
    forall j, m: nat | 0 <= j < |rest| && Belongs(rest[j], driver, m)
      ensures m <= k
    {
      var i := WithoutPartsAt(ds, id, j);
      assert Belongs(ds[i], driver, m);
    }
  }

  // What a rescan of disk `id` does to the numbering of a driver.

  /** Rescanning a disk of another driver. */
  lemma RescanForeign(ds: Drives, id: string, recs: seq<Record>, driver: string, k: nat)
    requires WholeIn(ds, id) && '.' !in driver && !(driver <= id)
    requires Numbered(ds, driver, k) && InOrder(ds, driver)
    ensures Numbered(Rescan(ds, id, recs), driver, k) && InOrder(Rescan(ds, id, recs), driver)
  {
    var rest, ps := WithoutParts(ds, id), NewParts(id, recs);
    RescanShape(ds, id, recs);
    WithoutPartsInOrder(ds, id, driver);
    forall i | 0 <= i < |ps|
      ensures !(driver <= ps[i].id)
    {
      if driver <= ps[i].id { PrefixOfPart(driver, id, i + 1); }
    }
    RescanNumbers(ds, id, recs, driver, k);
    AppendForeign(rest, ps, driver);
  }

  lemma AppendForeign(ds: Drives, es: Drives, driver: string)
    requires InOrder(ds, driver) && forall i | 0 <= i < |es| :: !(driver <= es[i].id)
    ensures InOrder(ds + es, driver)
  {
    var all := ds + es;
    forall i, j, m: nat, n: nat | 0 <= i < j < |all| && Belongs(all[i], driver, m) && Belongs(all[j], driver, n)
      ensures m <= n
    {
      BelongsPrefix(all[i], driver, m);
      BelongsPrefix(all[j], driver, n);
      assert all[i] == ds[i] && all[j] == ds[j];
    }
  }

  /** Rescanning the driver's newest disk. */
  lemma RescanNewest(ds: Drives, recs: seq<Record>, driver: string, c: nat)
    requires Numbered(ds, driver, c + 1) && InOrder(ds, driver)
    ensures var r := Rescan(ds, driver + Dec(c), recs);
            Numbered(r, driver, c + 1) && InOrder(r, driver)
  {
    var id := driver + Dec(c);
    assert WholeIn(ds, id);
    var rest, ps := WithoutParts(ds, id), NewParts(id, recs);
    RescanShape(ds, id, recs);
    WithoutPartsInOrder(ds, id, driver);
    NumberedUpTo(ds, driver, c + 1, c);
    WithoutPartsUpTo(ds, id, driver, c);
    NewPartsNumber(id, recs, driver, c);
    RescanNumbers(ds, id, recs, driver, c + 1);
    AppendInOrder(rest, ps, driver, c);
  }

  lemma NewPartsNumber(id: string, recs: seq<Record>, driver: string, c: nat)
    requires id == driver + Dec(c)
    ensures forall i, m: nat | 0 <= i < |recs| && Belongs(NewParts(id, recs)[i], driver, m) :: m == c
  {
    forall i, m: nat | 0 <= i < |recs| && Belongs(NewParts(id, recs)[i], driver, m)
      ensures m == c
    {
      NewPartsBelong(id, recs, driver, c, i);
      BelongsUnique(NewParts(id, recs)[i], driver, m, c);
    }
  }

  /** Rescans keep the set of disk numbers. */
  lemma RescanNumbers(ds: Drives, id: string, recs: seq<Record>, driver: string, k: nat)
    requires WholeIn(ds, id) && Numbered(ds, driver, k)
    requires (exists c :: 0 <= c < k && id == driver + Dec(c)) || ('.' !in driver && !(driver <= id))
    ensures Numbered(Rescan(ds, id, recs), driver, k)
  {
    var r, rest, ps := Rescan(ds, id, recs), WithoutParts(ds, id), NewParts(id, recs);
    RescanShape(ds, id, recs);
    forall n | 0 <= n < k
      ensures WholeIn(r, driver + Dec(n))
    {
      RescanDisks(ds, id, recs, Whole(driver + Dec(n)));
    }
    forall i | 0 <= i < |r| && driver <= r[i].id
      ensures exists n :: 0 <= n < k && Belongs(r[i], driver, n)
    {
      if i < |rest| {
        WithoutPartsMembers(ds, id, rest[i]);
        assert rest[i] in ds && r[i] == rest[i];
      } else {
        assert r[i] == ps[i - |rest|];
        if '.' !in driver && !(driver <= id) {
          PrefixOfPart(driver, id, i - |rest| + 1);
        } else {
          var c :| 0 <= c < k && id == driver + Dec(c);
          NewPartsBelong(id, recs, driver, c, i - |rest|);
        }
      }
    }
  }

  lemma RescanNextNumber(ds: Drives, recs: seq<Record>, driver: string, m: nat)
    requires WholeIn(ds, driver + Dec(m)) && recs != [] && m < 0xFFFF_FFFF
    ensures NextNumber(Rescan(ds, driver + Dec(m), recs), driver) == m + 1
  {
    var id := driver + Dec(m);
    var ps := NewParts(id, recs);
    RescanShape(ds, id, recs);
    NewPartsBelong(id, recs, driver, m, |recs| - 1);
    NumberOfBelonging(ps[|recs| - 1], driver, m);
  }

  lemma RescanNoParts(ds: Drives, driver: string, k: nat, id: string)
    requires Numbered(WithoutParts(ds, id), driver, k) && InOrder(ds, driver) && k <= 0xFFFF_FFFF
    ensures NextNumber(WithoutParts(ds, id), driver) == k
  {
    WithoutPartsInOrder(ds, id, driver);
    InOrderNextNumber(WithoutParts(ds, id), driver, k);
  }

  /** After rescanning disk m the generated id is new exactly if m is the newest disk or has no partitions. */
  lemma RescanFresh(ds: Drives, recs: seq<Record>, driver: string, k: nat, m: nat)
    requires Numbered(ds, driver, k) && InOrder(ds, driver) && m < k <= 0xFFFF_FFFF
    ensures var r := Rescan(ds, driver + Dec(m), recs);
            !WholeIn(r, GenerateId(r, driver)) <==> m + 1 == k || recs == []
  {
    var id := driver + Dec(m);
    assert WholeIn(ds, id);
    assert exists c :: 0 <= c < k && id == driver + Dec(c) by { assert 0 <= m < k && id == driver + Dec(m); }
    RescanNumbers(ds, id, recs, driver, k);
    GeneratedNumberFresh(Rescan(ds, id, recs), driver, k);
    if recs == [] {
      RescanShape(ds, id, recs);
      assert Rescan(ds, id, recs) == WithoutParts(ds, id);
      RescanNoParts(ds, driver, k, id);
    } else {
      RescanNextNumber(ds, recs, driver, m);
    }
  }

  /** It happens: after rescanning the older of two disks the next id is the newer one's. */
  lemma OlderRescanRepeats(driver: string, ds: Drives, recs: seq<Record>)
    requires driver == "ata" && ds == [Whole(driver + Dec(0)), Whole(driver + Dec(1))] && recs == [Record(63, 100)]
    ensures var r := Rescan(ds, driver + Dec(0), recs); WholeIn(r, GenerateId(r, driver))
  {
    TwoDisks(driver, ds);
    RescanFresh(ds, recs, driver, 2, 0);
  }

  lemma TwoDisks(driver: string, ds: Drives)
    requires ds == [Whole(driver + Dec(0)), Whole(driver + Dec(1))]
    ensures Numbered(ds, driver, 2) && InOrder(ds, driver)
  {
    assert Belongs(ds[0], driver, 0) && Belongs(ds[1], driver, 1);
    forall n | 0 <= n < 2 ensures WholeIn(ds, driver + Dec(n)) { assert ds[n] == Whole(driver + Dec(n)); }
    forall i, j, m: nat, n: nat | 0 <= i < j < |ds| && Belongs(ds[i], driver, m) && Belongs(ds[j], driver, n)
      ensures m <= n
    {
      SameNumber(driver, m, 0);
      SameNumber(driver, n, 1);
    }
  }

  /** Rescanning any disk of the driver and finding nothing. */
  lemma RescanFoundNothing(ds: Drives, driver: string, k: nat, m: nat)
    requires Numbered(ds, driver, k) && InOrder(ds, driver) && m < k
    ensures var r := Rescan(ds, driver + Dec(m), []); Numbered(r, driver, k) && InOrder(r, driver)
  {
    var id, none := driver + Dec(m), [];
    assert WholeIn(ds, id);
    assert exists c :: 0 <= c < k && id == driver + Dec(c) by { assert 0 <= m < k && id == driver + Dec(m); }
    RescanNumbers(ds, id, none, driver, k);
    RescanShape(ds, id, none);
    assert Rescan(ds, id, none) == WithoutParts(ds, id);
    WithoutPartsInOrder(ds, id, driver);
  }

  lemma AppendOwn(ds: Drives, driver: string, k: nat)
    requires Numbered(ds, driver, k) && InOrder(ds, driver)
    ensures var all := ds + [Whole(driver + Dec(k))];
            Numbered(all, driver, k + 1) && InOrder(all, driver)
  {
    var d := Whole(driver + Dec(k));
    var all := ds + [d];
    NumberedUpTo(ds, driver, k, k);
    forall m: nat | Belongs(d, driver, m) ensures m == k { SameNumber(driver, m, k); }
    AppendInOrder(ds, [d], driver, k);
    assert all[|ds|] == d && Belongs(d, driver, k);
    forall n | 0 <= n < k + 1
      ensures WholeIn(all, driver + Dec(n))
    {
      if n < k { assert WholeIn(ds, driver + Dec(n)); }
    }
    forall i | 0 <= i < |all| && driver <= all[i].id
      ensures exists n :: 0 <= n < k + 1 && Belongs(all[i], driver, n)
    {
      if i < |ds| {
        assert all[i] == ds[i];
        var n :| 0 <= n < k && Belongs(ds[i], driver, n);
      }
    }
  }

  lemma AppendOther(ds: Drives, id: string, driver: string, k: nat)
    requires Numbered(ds, driver, k) && InOrder(ds, driver) && !(driver <= id)
    ensures Numbered(ds + [Whole(id)], driver, k) && InOrder(ds + [Whole(id)], driver)
  {
    var all := ds + [Whole(id)];
    AppendForeign(ds, [Whole(id)], driver);
    forall n | 0 <= n < k
      ensures WholeIn(all, driver + Dec(n))
    {
      assert WholeIn(ds, driver + Dec(n));
    }
    forall i | 0 <= i < |all| && driver <= all[i].id
      ensures exists n :: 0 <= n < k && Belongs(all[i], driver, n)
    {
      assert all[i] == ds[i];
    }
  }

  /** Registering a disk under the generated id: the driver then has disks 0 .. k, still in order. */
  lemma RegisterOwn(ds: Drives, recs: seq<Record>, driver: string, k: nat)
    requires Numbered(ds, driver, k) && InOrder(ds, driver) && k <= 0xFFFF_FFFF
    ensures var r := Register(ds, GenerateId(ds, driver), recs);
            Numbered(r, driver, k + 1) && InOrder(r, driver)
  {
    InOrderNextNumber(ds, driver, k);
    AppendOwn(ds, driver, k);
    RescanNewest(ds + [Whole(driver + Dec(k))], recs, driver, k);
  }

  lemma RegisterOther(ds: Drives, id: string, recs: seq<Record>, driver: string, k: nat)
    requires Numbered(ds, driver, k) && InOrder(ds, driver) && '.' !in driver && !(driver <= id)
    ensures Numbered(Register(ds, id, recs), driver, k) && InOrder(Register(ds, id, recs), driver)
  {
    AppendOther(ds, id, driver, k);
    var all := ds + [Whole(id)];
    assert all[|ds|] == Whole(id);
    RescanForeign(all, id, recs, driver, k);
  }

  /** Drivers' names: without dots, none at the front of another. */
  ghost predicate PrefixFree(drivers: set<string>) {
    && (forall d | d in drivers :: '.' !in d)
    && (forall d, e | d in drivers && e in drivers && d != e :: !(d <= e))
  }

  lemma OtherDriversId(drivers: set<string>, d: string, e: string, n: nat)
    requires PrefixFree(drivers) && d in drivers && e in drivers && d != e
    ensures !(d <= e + Dec(n))
  {
    assert !(d <= e) && !(e <= d);
    var id := e + Dec(n);
    if |d| <= |e| {
      assert id[..|d|] == e[..|d|];
    } else {
      assert id[..|e|] == e;
    }
  }

  /** A driver registers one more disk under a generated id, or disk n of a driver is rescanned. */
  datatype DriverOp = NewDisk(driver: string, recs: seq<Record>) | RescanOf(driver: string, n: nat, recs: seq<Record>)

  function ApplyDriverOp(ds: Drives, op: DriverOp): Drives {
    match op
    case NewDisk(d, recs) => Register(ds, GenerateId(ds, d), recs)
    case RescanOf(d, n, recs) => Rescan(ds, d + Dec(n), recs)
  }

  /** How many disks each driver has registered. */
  type Counts = map<string, nat>

  function Counted(counts: Counts, op: DriverOp): (r: Counts)
    requires op.driver in counts
  {
    if op.NewDisk? then counts[op.driver := counts[op.driver] + 1] else counts
  }

  /** Only known drivers, no more disks than a usize counts, and older disks rescanned only to find nothing. */
  ghost predicate Allowed(counts: Counts, op: DriverOp) {
    && op.driver in counts
    && (op.NewDisk? ==> counts[op.driver] < 0xFFFF_FFFF)
    && (op.RescanOf? ==> op.n + 1 == counts[op.driver] || (op.n < counts[op.driver] && op.recs == []))
  }

  ghost predicate AllowedRun(counts: Counts, ops: seq<DriverOp>)
    decreases |ops|
  {
    ops == [] || (Allowed(counts, ops[0]) && AllowedRun(Counted(counts, ops[0]), ops[1..]))
  }

  function DriverRun(ds: Drives, ops: seq<DriverOp>): Drives
    decreases |ops|
  {
    if ops == [] then ds else DriverRun(ApplyDriverOp(ds, ops[0]), ops[1..])
  }

  ghost predicate DriverReady(ds: Drives, driver: string, k: nat) {
    k <= 0xFFFF_FFFF && Numbered(ds, driver, k) && InOrder(ds, driver)
  }

  ghost predicate Ready(ds: Drives, counts: Counts) {
    && Sound(ds) && PrefixFree(counts.Keys)
    && forall d | d in counts :: DriverReady(ds, d, counts[d])
  }

  /** Ready registries make up new ids for every driver. */
  lemma ReadyIdFresh(ds: Drives, counts: Counts, driver: string)
    requires Ready(ds, counts) && driver in counts
    ensures GenerateId(ds, driver) == driver + Dec(counts[driver])
    ensures !WholeIn(ds, GenerateId(ds, driver)) && '.' !in GenerateId(ds, driver)
  {
    var k := counts[driver];
    assert DriverReady(ds, driver, k);
    InOrderNextNumber(ds, driver, k);
    GeneratedNumberFresh(ds, driver, k);
    NoDotInDec(k);
  }

  lemma StepKeepsDriver(ds: Drives, counts: Counts, op: DriverOp, d: string)
    requires Ready(ds, counts) && Allowed(counts, op) && d in counts
    ensures var r := ApplyDriverOp(ds, op);
            DriverReady(r, d, Counted(counts, op)[d])
  {
    var k := counts[d];
    assert DriverReady(ds, d, k);
    match op {
      case NewDisk(e, recs) =>
        if d == e {
          RegisterOwn(ds, recs, d, k);
        } else {
          ReadyIdFresh(ds, counts, e);
          OtherDriversId(counts.Keys, d, e, counts[e]);
          RegisterOther(ds, GenerateId(ds, e), recs, d, k);
        }
      case RescanOf(e, n, recs) =>
        if d == e && recs == [] {
          RescanFoundNothing(ds, d, k, n);
        } else if d == e {
          RescanNewest(ds, recs, d, n);
        } else {
          OtherDriversId(counts.Keys, d, e, n);
          assert DriverReady(ds, e, counts[e]) && WholeIn(ds, e + Dec(n));
          RescanForeign(ds, e + Dec(n), recs, d, k);
        }
    }
  }

  lemma StepKeepsReady(ds: Drives, counts: Counts, op: DriverOp)
    requires Ready(ds, counts) && Allowed(counts, op)
    ensures Ready(ApplyDriverOp(ds, op), Counted(counts, op))
  {
    StepKeepsSound(ds, counts, op);
    var r, after := ApplyDriverOp(ds, op), Counted(counts, op);
    assert after.Keys == counts.Keys;
    forall d | d in after
      ensures DriverReady(r, d, after[d])
    {
      StepKeepsDriver(ds, counts, op, d);
    }
  }

  lemma StepKeepsSound(ds: Drives, counts: Counts, op: DriverOp)
    requires Ready(ds, counts) && Allowed(counts, op)
    ensures Sound(ApplyDriverOp(ds, op))
  {
    match op {
      case NewDisk(e, recs) =>
        ReadyIdFresh(ds, counts, e);
        RegisterKeeps(ds, GenerateId(ds, e), recs);
      case RescanOf(e, n, recs) =>
        assert DriverReady(ds, e, counts[e]) && WholeIn(ds, e + Dec(n));
        RescanKeeps(ds, e + Dec(n), recs);
    }
  }

  /** Over every run of registrations and harmless rescans, each generated id is new. */
  lemma {:induction false} RunKeepsIdsFresh(ds: Drives, counts: Counts, ops: seq<DriverOp>, driver: string)
    requires Ready(ds, counts) && AllowedRun(counts, ops) && driver in counts
    ensures var r := DriverRun(ds, ops); Sound(r) && !WholeIn(r, GenerateId(r, driver))
    decreases |ops|
  {
    if ops == [] {
      ReadyIdFresh(ds, counts, driver);
    } else {
      StepKeepsReady(ds, counts, ops[0]);
      RunKeepsIdsFresh(ApplyDriverOp(ds, ops[0]), Counted(counts, ops[0]), ops[1..], driver);
    }
  }

  /** The empty registry is a ready start for any prefix-free drivers. */
  lemma EmptyIsReady(drivers: set<string>)
    requires PrefixFree(drivers)
    ensures Ready([], map d | d in drivers :: 0)
  {
    var counts := map d | d in drivers :: 0 as nat;
    assert counts.Keys == drivers;
    EmptyIsSound();
  }
}
