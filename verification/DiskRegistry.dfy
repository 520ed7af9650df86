/**
  The disk registry of rust/noct-diskman/src/lib.rs and the partitions of
  rust/noct-diskman/src/partition.rs: a list of drives in registration order,
  where a rescan drops a disk's partitions and appends the new ones.

  What a scan of the disk finds is a parameter of every rescan.
 */
module DiskRegistry {
  import opened DecimalText

  /** A partition record: its first sector and its number of sectors. */
  datatype Record = Record(start: nat, count: nat)

  datatype Drive =
    | Whole(id: string)
    | Part(id: string, parent: string, start: nat, end: nat)

  type Drives = seq<Drive>

  predicate IsPartOf(d: Drive, id: string) {
    d.Part? && d.parent == id
  }

  function PartId(id: string, n: nat): string {
    id + "." + Dec(n)
  }

  /** The partitions of a rescan, numbered from 1; MBR sectors always have 512 bytes. */
  function NewParts(id: string, recs: seq<Record>): (ps: Drives)
    ensures |ps| == |recs|
    ensures forall n | 0 <= n < |recs| ::
              ps[n] == Part(PartId(id, n + 1), id, recs[n].start * 512, (recs[n].start + recs[n].count) * 512)
  {
    seq(|recs|, n requires 0 <= n < |recs| =>
      Part(PartId(id, n + 1), id, recs[n].start * 512, (recs[n].start + recs[n].count) * 512))
  }

  /** remove_partitions */
  function WithoutParts(ds: Drives, id: string): Drives {
    if ds == [] then []
    else WithoutParts(ds[..|ds| - 1], id) + (if IsPartOf(ds[|ds| - 1], id) then [] else [ds[|ds| - 1]])
  }

  /** A disk's partitions, in list order. */
  function PartsOf(ds: Drives, id: string): Drives {
    if ds == [] then []
    else PartsOf(ds[..|ds| - 1], id) + (if IsPartOf(ds[|ds| - 1], id) then [ds[|ds| - 1]] else [])
  }

  /** iter().find(|x| x.get_id() == id), or the length. */
  function Find(ds: Drives, id: string): (i: nat)
    ensures i <= |ds|
    ensures i < |ds| ==> ds[i].id == id
    ensures forall j | 0 <= j < i :: ds[j].id != id
  {
    if ds == [] then 0
    else if ds[0].id == id then 0
    else
      var i := Find(ds[1..], id);
      assert forall j | 1 <= j < i + 1 :: ds[j] == ds[1..][j - 1];
      i + 1
  }

  /** rescan_disk_for_partitions */
  function Rescan(ds: Drives, id: string, recs: seq<Record>): Drives {
    var rest := WithoutParts(ds, id);
    if Find(rest, id) < |rest| then rest + NewParts(id, recs) else rest
  }

  /** register_drive */
  function Register(ds: Drives, id: string, recs: seq<Record>): Drives {
    Rescan(ds + [Whole(id)], id, recs)
  }

  // ------------------------------------------------------- the invariant

  ghost predicate WholeIn(ds: Drives, id: string) {
    Whole(id) in ds
  }

  /** Whole disks have distinct ids without dots. */
  ghost predicate DistinctDisks(ds: Drives) {
    && (forall i | 0 <= i < |ds| && ds[i].Whole? :: '.' !in ds[i].id)
    && (forall i, j | 0 <= i < j < |ds| && ds[i].Whole? && ds[j].Whole? :: ds[i].id != ds[j].id)
  }

  /** Every partition has its disk strictly before it, and a dot in its id. */
  ghost predicate ParentsBefore(ds: Drives) {
    forall j | 0 <= j < |ds| && ds[j].Part? ::
      WholeIn(ds[..j], ds[j].parent) && '.' in ds[j].id
  }

  /** The partitions of every disk are numbered 1, 2, ... without gaps. */
  ghost predicate PartsNumbered(ds: Drives) {
    forall id, n | 0 <= n < |PartsOf(ds, id)| :: PartsOf(ds, id)[n].id == PartId(id, n + 1)
  }

  ghost predicate Sound(ds: Drives) {
    DistinctDisks(ds) && ParentsBefore(ds) && PartsNumbered(ds)
  }

  // ------------------------------------------------------- what the list functions keep

  lemma {:induction false} WithoutPartsMembers(ds: Drives, id: string, d: Drive)
    ensures d in WithoutParts(ds, id) <==> d in ds && !IsPartOf(d, id)
    decreases |ds|
  {
    if ds != [] {
      var n := |ds| - 1;
      WithoutPartsMembers(ds[..n], id, d);
      assert ds == ds[..n] + [ds[n]];
    }
  }

  /** Dropping partitions keeps the order: each survivor has the survivors of its prefix before it. */
  lemma {:induction false} WithoutPartsAt(ds: Drives, id: string, j: nat) returns (i: nat)
    requires j < |WithoutParts(ds, id)|
    ensures i < |ds| && WithoutParts(ds, id)[j] == ds[i] && !IsPartOf(ds[i], id)
    ensures WithoutParts(ds, id)[..j] == WithoutParts(ds[..i], id)
    ensures j <= i
    decreases |ds|
  {
    var n := |ds| - 1;
    var front := WithoutParts(ds[..n], id);
    if j < |front| {
      i := WithoutPartsAt(ds[..n], id, j);
      assert ds[..n][..i] == ds[..i];
      assert WithoutParts(ds, id)[..j] == front[..j];
    } else {
      i := n;
      WithoutPartsShorter(ds[..n], id);
    }
  }

  lemma {:induction false} WithoutPartsShorter(ds: Drives, id: string)
    ensures |WithoutParts(ds, id)| <= |ds|
    decreases |ds|
  {
    if ds != [] { WithoutPartsShorter(ds[..|ds| - 1], id); }
  }

  lemma {:induction false} PartsOfWithout(ds: Drives, id: string, other: string)
    ensures PartsOf(WithoutParts(ds, id), other) == if other == id then [] else PartsOf(ds, other)
    decreases |ds|
  {
    if ds != [] {
      var n := |ds| - 1;
      PartsOfWithout(ds[..n], id, other);
      var front := WithoutParts(ds[..n], id);
      if IsPartOf(ds[n], id) {
        assert WithoutParts(ds, id) == front;
      } else {
        PartsOfAppend(front, [ds[n]], other);
        PartsOfSingle(ds[n], other);
      }
    }
  }

  lemma PartsOfSingle(d: Drive, id: string)
    ensures PartsOf([d], id) == if IsPartOf(d, id) then [d] else []
  {
    var one := [d];
    assert one[..0] == [];
  }

  lemma {:induction false} PartsOfAppend(ds: Drives, es: Drives, id: string)
    ensures PartsOf(ds + es, id) == PartsOf(ds, id) + PartsOf(es, id)
    decreases |es|
  {
    if es == [] {
      assert ds + es == ds;
    } else {
      assert (ds + es)[..|ds + es| - 1] == ds + es[..|es| - 1];
      PartsOfAppend(ds, es[..|es| - 1], id);
    }
  }

  lemma {:induction false} PartsOfParts(ps: Drives, id: string, other: string)
    requires forall n | 0 <= n < |ps| :: IsPartOf(ps[n], id)
    ensures PartsOf(ps, other) == if other == id then ps else []
    decreases |ps|
  {
    if ps != [] {
      PartsOfParts(ps[..|ps| - 1], id, other);
    }
  }

  /** Splitting a list into a disk's partitions and the rest loses nothing. */
  lemma {:induction false} PartsAndRest(ds: Drives, id: string)
    ensures multiset(WithoutParts(ds, id)) + multiset(PartsOf(ds, id)) == multiset(ds)
    decreases |ds|
  {
    if ds != [] {
      var front, last := ds[..|ds| - 1], ds[|ds| - 1];
      PartsAndRest(front, id);
      assert ds == front + [last];
      assert multiset(ds) == multiset(front) + multiset{last};
      if IsPartOf(last, id) {
        assert PartsOf(ds, id) == PartsOf(front, id) + [last] && WithoutParts(ds, id) == WithoutParts(front, id);
      } else {
        assert PartsOf(ds, id) == PartsOf(front, id) && WithoutParts(ds, id) == WithoutParts(front, id) + [last];
      }
    }
  }

  // ------------------------------------------------------- every step keeps the invariant

  lemma FindHit(ds: Drives, id: string)
    requires WholeIn(ds, id)
    ensures Find(ds, id) < |ds|
  {
    var i :| 0 <= i < |ds| && ds[i] == Whole(id);
    assert ds[i].id == id;
  }

  lemma WithoutPartsDistinct(ds: Drives, id: string)
    requires DistinctDisks(ds)
    ensures DistinctDisks(WithoutParts(ds, id))
  {
    var rest := WithoutParts(ds, id);
    forall j | 0 <= j < |rest| && rest[j].Whole?
      ensures '.' !in rest[j].id
    {
      var i := WithoutPartsAt(ds, id, j);
    }
    forall k, j | 0 <= k < j < |rest| && rest[k].Whole? && rest[j].Whole?
      ensures rest[k].id != rest[j].id
    {
      var i := WithoutPartsAt(ds, id, j);
      assert rest[k] in rest[..j];
      WithoutPartsMembers(ds[..i], id, rest[k]);
      var i' :| 0 <= i' < i && ds[..i][i'] == rest[k];
      assert ds[i'] == rest[k];
    }
  }

  lemma WithoutPartsParents(ds: Drives, id: string)
    requires ParentsBefore(ds)
    ensures ParentsBefore(WithoutParts(ds, id))
  {
    var rest := WithoutParts(ds, id);
    forall j | 0 <= j < |rest| && rest[j].Part?
      ensures WholeIn(rest[..j], rest[j].parent) && '.' in rest[j].id
    {
      var i := WithoutPartsAt(ds, id, j);
      WithoutPartsMembers(ds[..i], id, Whole(ds[i].parent));
    }
  }

  lemma AppendPartsDistinct(ds: Drives, ps: Drives)
    requires DistinctDisks(ds) && forall n | 0 <= n < |ps| :: ps[n].Part?
    ensures DistinctDisks(ds + ps)
  {
  }

  lemma AppendPartsParents(ds: Drives, id: string, ps: Drives)
    requires ParentsBefore(ds) && WholeIn(ds, id)
    requires forall n | 0 <= n < |ps| :: IsPartOf(ps[n], id) && '.' in ps[n].id
    ensures ParentsBefore(ds + ps)
  {
    var all := ds + ps;
    forall j | 0 <= j < |all| && all[j].Part?
      ensures WholeIn(all[..j], all[j].parent) && '.' in all[j].id
    {
      if j < |ds| {
        assert all[..j] == ds[..j];
      } else {
        assert all[..j] == ds + ps[..j - |ds|];
      }
    }
  }

  /** A rescan of a registered disk finds it. */
  lemma RescanShape(ds: Drives, id: string, recs: seq<Record>)
    requires WholeIn(ds, id)
    ensures Rescan(ds, id, recs) == WithoutParts(ds, id) + NewParts(id, recs)
    ensures WholeIn(WithoutParts(ds, id), id)
  {
    WithoutPartsMembers(ds, id, Whole(id));
    FindHit(WithoutParts(ds, id), id);
  }

  /** It gives the disk exactly the partitions id.1 .. id.k found, and leaves all others alone. */
  lemma RescanParts(ds: Drives, id: string, recs: seq<Record>, other: string)
    requires WholeIn(ds, id)
    ensures PartsOf(Rescan(ds, id, recs), other) == if other == id then NewParts(id, recs) else PartsOf(ds, other)
  {
    RescanShape(ds, id, recs);
    PartsOfAppend(WithoutParts(ds, id), NewParts(id, recs), other);
    PartsOfWithout(ds, id, other);
    PartsOfParts(NewParts(id, recs), id, other);
  }

  /** A byte of the disk is in a partition exactly if its 512-byte sector is in the record. */
  lemma PartCovers(id: string, recs: seq<Record>, n: nat, b: nat)
    requires n < |recs|
    ensures var p := NewParts(id, recs)[n];
            p.start <= b < p.end <==> recs[n].start <= b / 512 < recs[n].start + recs[n].count
  {
    assert b == 512 * (b / 512) + b % 512;
  }

  /** It neither adds nor drops a disk. */
  lemma RescanDisks(ds: Drives, id: string, recs: seq<Record>, d: Drive)
    requires WholeIn(ds, id) && d.Whole?
    ensures d in Rescan(ds, id, recs) <==> d in ds
  {
    RescanShape(ds, id, recs);
    WithoutPartsMembers(ds, id, d);
  }

  /** And it keeps the invariant. */
  lemma RescanKeeps(ds: Drives, id: string, recs: seq<Record>)
    requires Sound(ds) && WholeIn(ds, id)
    ensures Sound(Rescan(ds, id, recs))
  {
    var rest, ps := WithoutParts(ds, id), NewParts(id, recs);
    RescanShape(ds, id, recs);
    WithoutPartsDistinct(ds, id);
    WithoutPartsParents(ds, id);
    AppendPartsDistinct(rest, ps);
    forall n | 0 <= n < |ps| ensures IsPartOf(ps[n], id) && '.' in ps[n].id { DotInPartId(id, n + 1); }
    AppendPartsParents(rest, id, ps);
    RescanNumbered(ds, id, recs);
  }

  lemma RescanNumbered(ds: Drives, id: string, recs: seq<Record>)
    requires PartsNumbered(ds) && WholeIn(ds, id)
    ensures PartsNumbered(Rescan(ds, id, recs))
  {
    var r := Rescan(ds, id, recs);
    forall other, n | 0 <= n < |PartsOf(r, other)|
      ensures PartsOf(r, other)[n].id == PartId(other, n + 1)
    {
      RescanParts(ds, id, recs, other);
    }
  }

  lemma DotInPartId(id: string, n: nat)
    ensures '.' in PartId(id, n)
  {
    assert PartId(id, n)[|id|] == '.';
  }

  lemma AppendDiskSound(ds: Drives, id: string)
    requires Sound(ds) && '.' !in id && !WholeIn(ds, id)
    ensures Sound(ds + [Whole(id)])
  {
    var all := ds + [Whole(id)];
    forall j | 0 <= j < |all| && all[j].Part?
      ensures WholeIn(all[..j], all[j].parent) && '.' in all[j].id
    {
      assert all[..j] == ds[..j];
    }
    forall i | 0 <= i < |ds| && ds[i].Whole?
      ensures ds[i].id != id
    {
      assert ds[i] == Whole(ds[i].id);
    }
    forall other
      ensures PartsOf(all, other) == PartsOf(ds, other)
    {
      PartsOfAppend(ds, [Whole(id)], other);
      PartsOfSingle(Whole(id), other);
    }
  }

  /** Registering a disk under a new id without dots keeps the invariant. */
  lemma RegisterKeeps(ds: Drives, id: string, recs: seq<Record>)
    requires Sound(ds) && '.' !in id && !WholeIn(ds, id)
    ensures Sound(Register(ds, id, recs)) && WholeIn(Register(ds, id, recs), id)
    ensures PartsOf(Register(ds, id, recs), id) == NewParts(id, recs)
  {
    AppendDiskSound(ds, id);
    var all := ds + [Whole(id)];
    assert all[|ds|] == Whole(id);
    RescanKeeps(all, id, recs);
    RescanParts(all, id, recs, id);
    RescanDisks(all, id, recs, Whole(id));
  }

  /** Rescanning an unchanged disk keeps the drives; only the order may change. */
  lemma RescanUnchanged(ds: Drives, id: string, recs: seq<Record>)
    requires WholeIn(ds, id) && PartsOf(ds, id) == NewParts(id, recs)
    ensures multiset(Rescan(ds, id, recs)) == multiset(ds)
  {
    RescanShape(ds, id, recs);
    PartsAndRest(ds, id);
  }

  // ------------------------------------------------------- runs

  datatype Op = RegisterOp(id: string, recs: seq<Record>) | RescanOp(id: string, recs: seq<Record>)

  function ApplyOp(ds: Drives, op: Op): Drives {
    match op
    case RegisterOp(id, recs) => Register(ds, id, recs)
    case RescanOp(id, recs) => Rescan(ds, id, recs)
  }

  /** New disks get new ids without dots; rescans name whole disks. */
  ghost predicate Legal(ds: Drives, op: Op) {
    match op
    case RegisterOp(id, _) => '.' !in id && !WholeIn(ds, id)
    case RescanOp(id, _) => WholeIn(ds, id)
  }

  function Run(ds: Drives, ops: seq<Op>): Drives
    decreases |ops|
  {
    if ops == [] then ds else Run(ApplyOp(ds, ops[0]), ops[1..])
  }

  ghost predicate LegalRun(ds: Drives, ops: seq<Op>)
    decreases |ops|
  {
    ops == [] || (Legal(ds, ops[0]) && LegalRun(ApplyOp(ds, ops[0]), ops[1..]))
  }

  /** The invariant in every registry state that registering and rescanning reaches. */
  lemma {:induction false} RunKeepsSound(ds: Drives, ops: seq<Op>)
    requires Sound(ds) && LegalRun(ds, ops)
    ensures Sound(Run(ds, ops))
    decreases |ops|
  {
    if ops != [] {
      match ops[0] {
        case RegisterOp(id, recs) => RegisterKeeps(ds, id, recs);
        case RescanOp(id, recs) => RescanKeeps(ds, id, recs);
      }
      RunKeepsSound(ApplyOp(ds, ops[0]), ops[1..]);
    }
  }

  lemma EmptyIsSound()
    ensures Sound([])
  {
  }

  // ------------------------------------------------------- partition access under locks

  /** In a sound registry the parent search ends at the disk, before the partition itself. */
  lemma ParentFoundBefore(ds: Drives, j: nat)
    requires Sound(ds) && j < |ds| && ds[j].Part?
    ensures var i := Find(ds, ds[j].parent); i < j && ds[i] == Whole(ds[j].parent)
  {
    var parent := ds[j].parent;
    assert WholeIn(ds[..j], parent);
    var k :| 0 <= k < j && ds[..j][k] == Whole(parent);
    assert ds[k] == Whole(parent);
    var i := Find(ds, parent);
    assert i <= k && ds[i].id == parent;
    assert '.' !in ds[k].id;
  }

  /** Where an access of n bytes goes: to a whole disk at a byte offset, past the end, nowhere, or never on. */
  datatype Access = ToDisk(disk: nat, offset: nat, n: nat) | PastEnd | NoDrive | Deadlock

  /**
    Partition::read and Partition::write with a buffer of n bytes while their
    own entry is locked for writing: reading that entry on the way to the
    parent would spin for ever.
   */
  method PartitionAccess(ds: Drives, own: nat, location: nat, n: nat) returns (r: Access)
    requires Sound(ds) && own < |ds| && ds[own].Part?
    ensures var i := Find(ds, ds[own].parent);
            && i < own && ds[i] == Whole(ds[own].parent)
            && r == if location >= ds[own].end then PastEnd else ToDisk(i, ds[own].start + location, n)
  {
    ParentFoundBefore(ds, own);
    var k := 0;
    while k < |ds|
      invariant k <= Find(ds, ds[own].parent)
    {
      if k == own {
        return Deadlock;
      }
      if ds[k].id == ds[own].parent {
        return if location >= ds[own].end then PastEnd else ToDisk(k, ds[own].start + location, n);
      }
      k := k + 1;
    }
    return NoDrive;
  }

  /** diskman::read and write: the id's entry is locked, then asked. No access waits for itself. */
  method DriveAccess(ds: Drives, id: string, location: nat, n: nat) returns (r: Access)
    requires Sound(ds)
    ensures var i := Find(ds, id);
            r == if i == |ds| then NoDrive
                 else if ds[i].Whole? then ToDisk(i, location, n)
                 else if location >= ds[i].end then PastEnd
                 else ToDisk(Find(ds, ds[i].parent), ds[i].start + location, n)
    ensures r.ToDisk? ==> r.disk < |ds| && ds[r.disk].Whole?
  {
    var k := 0;
    while k < |ds|
      invariant k <= Find(ds, id)
    {
      if ds[k].id == id {
        if ds[k].Whole? {
          return ToDisk(k, location, n);
        }
        r := PartitionAccess(ds, k, location, n);
        return;
      }
      k := k + 1;
    }
    return NoDrive;
  }

  // ------------------------------------------------------- the bounds of a partition

  /** The bytes on the disk that a request reaches, if the guard of partition.rs lets it through. */
  predicate Reaches(start: nat, end: nat, location: nat, n: nat, b: nat) {
    location < end && start + location <= b < start + location + n
  }

  ghost predicate StaysInside(start: nat, end: nat, location: nat, n: nat) {
    forall b: nat | Reaches(start, end, location, n, b) :: start <= b < end
  }

  /**
    The guard compares with the partition's end on the disk and ignores the
    length: a request stays inside exactly if it is turned away, asks for
    nothing, or ends within the partition's size.
   */
  lemma GuardExactly(start: nat, end: nat, location: nat, n: nat)
    requires start <= end
    ensures StaysInside(start, end, location, n) <==> location >= end || n == 0 || location + n <= end - start
  {
    if location < end && n > 0 {
      assert Reaches(start, end, location, n, start + location + n - 1);
    }
  }

  /** So some request leaves the partition unless the guard turns every one away. */
  lemma GuardLetsOut(start: nat, end: nat)
    requires start <= end
    ensures (exists location: nat, n: nat :: !StaysInside(start, end, location, n)) <==> 0 < end
  {
    if 0 < end {
      GuardExactly(start, end, end - 1, 2);
      assert !StaysInside(start, end, end - 1, 2);
    } else {
      forall location: nat, n: nat
        ensures StaysInside(start, end, location, n)
      {
        GuardExactly(start, end, location, n);
      }
    }
  }

  /** Among requests for a single byte, some does exactly if the partition does not start at byte 0. */
  lemma GuardLetsByteOut(start: nat, end: nat)
    requires start <= end
    ensures (exists location: nat :: !StaysInside(start, end, location, 1)) <==> 0 < start
  {
    if 0 < start {
      GuardExactly(start, end, end - 1, 1);
      assert !StaysInside(start, end, end - 1, 1);
    } else {
      forall location: nat ensures StaysInside(start, end, location, 1) { GuardExactly(start, end, location, 1); }
    }
  }
}
