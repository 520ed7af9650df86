/**
  Path strings of rust/noct-path/src/lib.rs as values: "disk:/name/name", cut
  at slashes and at the mark ":/", and the stack of names they stand for.
 */
module PathText {

  // ------------------------------------------------------- cutting and joining

  /** str::split('/') */
  function Split(s: string): (r: seq<string>)
    ensures |r| >= 1
  {
    if s == [] then [[]]
    else if s[0] == '/' then [[]] + Split(s[1..])
    else
      var r := Split(s[1..]);
      [[s[0]] + r[0]] + r[1..]
  }

  /** [String]::join("/") */
  function Join(names: seq<string>): string {
    if names == [] then []
    else if |names| == 1 then names[0]
    else names[0] + "/" + Join(names[1..])
  }

  predicate NoSlash(names: seq<string>) {
    forall k | 0 <= k < |names| :: '/' !in names[k]
  }

  /** Cutting the text behind a first segment. */
  lemma {:induction false} SplitFirst(a: string, rest: string)
    requires '/' !in a
    ensures Split(a + "/" + rest) == [a] + Split(rest)
    ensures Split(a) == [a]
    decreases |a|
  {
    if a == [] {
      assert a + "/" + rest == "/" + rest;
      assert ("/" + rest)[1..] == rest;
    } else {
      var t := a + "/" + rest;
      assert t[1..] == a[1..] + "/" + rest;
      assert [a[0]] + a[1..] == a;
      SplitFirst(a[1..], rest);
      var r := Split(t[1..]);
      assert r[0] == a[1..] && r[1..] == Split(rest);
    }
  }

  /** Cutting undoes joining. */
  lemma {:induction false} SplitJoin(names: seq<string>)
    requires names != [] && NoSlash(names)
    ensures Split(Join(names)) == names
    decreases |names|
  {
    if |names| == 1 {
      SplitFirst(names[0], []);
    } else {
      SplitFirst(names[0], Join(names[1..]));
      SplitJoin(names[1..]);
    }
  }

  /** Paths one behind the other have their segments one behind the other. */
  lemma {:induction false} SplitAppend(p: string, q: string)
    ensures Split(p + "/" + q) == Split(p) + Split(q)
    decreases |p|
  {
    var t := p + "/" + q;
    if p == [] {
      assert t[1..] == q;
    } else {
      assert t[1..] == p[1..] + "/" + q;
      SplitAppend(p[1..], q);
    }
  }

  lemma {:induction false} SegmentsHaveNoSlash(s: string)
    ensures NoSlash(Split(s))
    decreases |s|
  {
    if s != [] { SegmentsHaveNoSlash(s[1..]); }
  }

  lemma {:induction false} JoinSnoc(names: seq<string>, n: string)
    requires names != []
    ensures Join(names + [n]) == Join(names) + "/" + n
    decreases |names|
  {
    var all := names + [n];
    assert all[1..] == names[1..] + [n];
    if |names| == 1 {
      assert all[1..] == [n];
    } else {
      JoinSnoc(names[1..], n);
    }
  }

  // ------------------------------------------------------- the mark ":/"

  lemma SliceBehind(s: string, i: nat)
    requires s != []
    ensures i + 3 <= |s| ==> s[1..][i..i + 2] == s[i + 1..i + 3]
  {
  }

  /** The position of the first ":/", or the length when there is none. */
  function FirstMark(s: string): (i: nat)
    ensures i <= |s|
    ensures i < |s| ==> i + 2 <= |s| && s[i..i + 2] == ":/"
  {
    if |s| < 2 then |s|
    else if s[0] == ':' && s[1] == '/' then 0
    else
      var i := FirstMark(s[1..]);
      assert i < |s| - 1 ==> s[1..][i..i + 2] == s[i + 1..i + 3] by { SliceBehind(s, i); }
      i + 1
  }

  /** The number of non-overlapping ":/", one less than the parts split(":/") yields. */
  function Marks(s: string): nat {
    var i := FirstMark(s);
    if i == |s| then 0 else 1 + Marks(s[i + 2..])
  }

  predicate EndsWith(s: string, c: char) {
    s != [] && s[|s| - 1] == c
  }

  /** A slash behind text without slashes makes a mark exactly behind a colon. */
  lemma {:induction false} MarkAcross(a: string, rest: string)
    requires '/' !in a
    ensures FirstMark(a) == |a|
    ensures FirstMark(a + "/" + rest) == if EndsWith(a, ':') then |a| - 1 else |a| + 1 + FirstMark(rest)
    decreases |a|
  {
    var t := a + "/" + rest;
    if a == [] {
      assert t == "/" + rest && t[1..] == rest;
    } else {
      assert t[1..] == a[1..] + "/" + rest;
      MarkAcross(a[1..], rest);
    }
  }

  /** The first name but the last that ends in a colon, or the name count. */
  function ColonName(names: seq<string>): (k: nat)
    ensures k <= |names|
    ensures k < |names| ==> k + 1 < |names| && EndsWith(names[k], ':')
    ensures forall j | 0 <= j < k && j + 1 < |names| :: !EndsWith(names[j], ':')
  {
    if |names| <= 1 then |names|
    else if EndsWith(names[0], ':') then 0
    else
      var k := ColonName(names[1..]);
      assert forall j | 1 <= j < k + 1 && j + 1 < |names| :: names[j] == names[1..][j - 1];
      k + 1
  }

  lemma JoinCons(a: string, rest: seq<string>)
    requires rest != []
    ensures Join([a] + rest) == a + "/" + Join(rest)
  {
    assert ([a] + rest)[1..] == rest;
  }

  lemma MarkBehind(a: string, r: string)
    requires '/' !in a && !EndsWith(a, ':')
    ensures var t := a + "/" + r; t[..FirstMark(t)] == a + "/" + r[..FirstMark(r)]
  {
    MarkAcross(a, r);
  }

  /** The names before the first colon name and that name without its colon, joined. */
  function BeforeColon(names: seq<string>): string {
    var k := ColonName(names);
    if k == |names| then Join(names) else Join(names[..k] + [names[k][..|names[k]| - 1]])
  }

  lemma BeforeColonCons(a: string, rest: seq<string>)
    requires rest != [] && !EndsWith(a, ':')
    ensures BeforeColon([a] + rest) == a + "/" + BeforeColon(rest)
  {
    var names, k := [a] + rest, ColonName(rest);
    assert names[1..] == rest;
    assert ColonName(names) == k + 1;
    if k < |rest| {
      var cut := [rest[k][..|rest[k]| - 1]];
      assert names[..k + 1] + cut == [a] + (rest[..k] + cut);
      JoinCons(a, rest[..k] + cut);
    } else {
      JoinCons(a, rest);
    }
  }

  lemma {:induction false} BeforeFirstMark(names: seq<string>)
    requires NoSlash(names)
    ensures var t := Join(names); t[..FirstMark(t)] == BeforeColon(names)
    decreases |names|
  {
    if |names| <= 1 {
      if names != [] { MarkAcross(names[0], []); }
    } else {
      var a, rest := names[0], names[1..];
      if EndsWith(a, ':') {
        MarkAcross(a, Join(rest));
        assert names[..0] + [a[..|a| - 1]] == [a[..|a| - 1]];
      } else {
        BeforeFirstMark(rest);
        MarkBehind(a, Join(rest));
        BeforeColonCons(a, rest);
        assert names == [a] + rest;
      }
    }
  }

  /** The text before the first mark among joined names. */
  lemma TextBeforeMark(names: seq<string>)
    requires NoSlash(names)
    ensures var k := ColonName(names);
            var t := Join(names);
            t[..FirstMark(t)] == if k == |names| then t else Join(names[..k] + [names[k][..|names[k]| - 1]])
  {
    BeforeFirstMark(names);
  }

  // ------------------------------------------------------- locations

  /** A disk and a stack of names below its root. */
  datatype Location = Location(disk: string, names: seq<string>)

  /** Disk names hold no slash; names are not empty and hold none either. */
  predicate Proper(l: Location) {
    && '/' !in l.disk && NoSlash(l.names)
    && forall k | 0 <= k < |l.names| :: l.names[k] != []
  }

  /** No name ends in a colon. */
  predicate NoColon(names: seq<string>) {
    forall k | 0 <= k < |names| :: !EndsWith(names[k], ':')
  }

  /** The canonical text: no trailing slash except behind the root. */
  function Text(l: Location): string {
    l.disk + ":/" + Join(l.names)
  }

  /** Path::disk_name and Path::path_part */
  function DiskName(s: string): string {
    s[..FirstMark(s)]
  }

  function PathPart(s: string): string {
    var i := FirstMark(s);
    if i == |s| then [] else
      var rest := s[i + 2..];
      rest[..FirstMark(rest)]
  }

  /** Disk and path part of a canonical text. */
  lemma PartsOfText(l: Location)
    requires '/' !in l.disk
    ensures DiskName(Text(l)) == l.disk
    ensures var t := Join(l.names); PathPart(Text(l)) == t[..FirstMark(t)]
  {
    var a, t := l.disk + ":", Join(l.names);
    assert Text(l) == a + "/" + t;
    MarkAcross(a, t);
    assert Text(l)[|l.disk| + 2..] == t;
  }

  /** parent on strings */
  function Parent(s: string): string {
    var segs := Split(PathPart(s));
    DiskName(s) + ":/" + Join(segs[..|segs| - 1])
  }

  /** parent drops everything from the first colon name on, or else the last name. */
  lemma ParentOfText(l: Location)
    requires Proper(l)
    ensures var k := ColonName(l.names);
            Parent(Text(l)) == Text(l.(names := if l.names == [] then []
                                                else if k < |l.names| then l.names[..k]
                                                else l.names[..|l.names| - 1]))
  {
    var k := ColonName(l.names);
    PartsOfText(l);
    TextBeforeMark(l.names);
    if l.names != [] {
      if k < |l.names| {
        var cut := l.names[k][..|l.names[k]| - 1];
        var parts := l.names[..k] + [cut];
        SplitJoin(parts);
        assert parts[..|parts| - 1] == l.names[..k];
      } else {
        SplitJoin(l.names);
      }
    }
  }

  /** The text of a location has one more character per level it gets deeper. */
  lemma {:induction false} JoinLonger(names: seq<string>, m: nat)
    requires m < |names| && forall k | 0 <= k < |names| :: names[k] != []
    ensures |Join(names[..m])| < |Join(names)|
    decreases |names|
  {
    if |names| > 1 && m > 0 {
      JoinLonger(names[1..], m - 1);
      assert names[..m][1..] == names[1..][..m - 1];
      if m == 1 { assert names[..1] == [names[0]]; }
    } else {
      assert m == 0;
    }
  }

  /** parent steps to the parent directory exactly when no name but the last ends in a colon. */
  lemma ParentIsParent(l: Location)
    requires Proper(l) && l.names != []
    ensures Parent(Text(l)) == Text(l.(names := l.names[..|l.names| - 1]))
            <==> forall j | 0 <= j < |l.names| - 1 :: !EndsWith(l.names[j], ':')
  {
    var n, k := |l.names|, ColonName(l.names);
    ParentOfText(l);
    if k < n {
      var front := l.names[..n - 1];
      assert l.names[..k] == front[..k];
      JoinLonger(front, k);
    }
  }
}
