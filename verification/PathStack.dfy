/**
  Path::apply of rust/noct-path/src/lib.rs against a stack of names: ".."
  pops, "." and empty segments do nothing, any other segment is pushed.
 */
module PathStack {
  import opened PathText

  // ------------------------------------------------------- the stack

  function WalkOne(names: seq<string>, seg: string): seq<string> {
    if seg == "." || seg == "" then names
    else if seg == ".." then (if names == [] then [] else names[..|names| - 1])
    else names + [seg]
  }

  function Walk(names: seq<string>, segs: seq<string>): seq<string> {
    if segs == [] then names else WalkOne(Walk(names, segs[..|segs| - 1]), segs[|segs| - 1])
  }

  lemma {:induction false} WalkAppend(names: seq<string>, a: seq<string>, b: seq<string>)
    ensures Walk(names, a + b) == Walk(Walk(names, a), b)
    decreases |b|
  {
    if b == [] {
      assert a + b == a;
    } else {
      assert (a + b)[..|a + b| - 1] == a + b[..|b| - 1];
      WalkAppend(names, a, b[..|b| - 1]);
    }
  }

  /** Locations whose text parent understands at every level. */
  predicate Plain(l: Location) {
    Proper(l) && NoColon(l.names)
  }

  lemma WalkOnePlain(l: Location, seg: string)
    requires Plain(l) && '/' !in seg && !EndsWith(seg, ':')
    ensures Plain(l.(names := WalkOne(l.names, seg)))
  {
  }

  // ------------------------------------------------------- the text while apply works on it

  /** The canonical text, or the same with the slash a push leaves behind. */
  predicate Working(s: string, l: Location) {
    s == Text(l) || (l.names != [] && s == Text(l) + "/")
  }

  function PushText(s: string, seg: string): string {
    (if EndsWith(s, '/') then s else s + "/") + seg + "/"
  }

  lemma TextEnd(l: Location)
    requires Proper(l)
    ensures EndsWith(Text(l), '/') <==> l.names == []
    ensures '/' in Text(l)
  {
    var t := Text(l);
    assert t[|l.disk| + 1] == '/';
    if l.names != [] { JoinEnd(l.names); }
  }

  lemma {:induction false} JoinEnd(names: seq<string>)
    requires names != [] && NoSlash(names) && forall k | 0 <= k < |names| :: names[k] != []
    ensures Join(names) != [] && !EndsWith(Join(names), '/')
    decreases |names|
  {
    if |names| > 1 { JoinEnd(names[1..]); }
  }

  lemma PushWorks(s: string, l: Location, seg: string)
    requires Proper(l) && Working(s, l) && '/' !in seg && seg != []
    ensures Working(PushText(s, seg), l.(names := l.names + [seg]))
  {
    TextEnd(l);
    if l.names == [] {
      assert [] + [seg] == [seg];
      assert Text(l) == l.disk + ":/";
    } else {
      JoinSnoc(l.names, seg);
    }
  }

  /** A string without its trailing slashes. */
  function Stripped(s: string): (r: string)
    ensures !EndsWith(r, '/')
  {
    if EndsWith(s, '/') then Stripped(s[..|s| - 1]) else s
  }

  /** remove_trailing on strings */
  function Trimmed(s: string): string {
    var r := Stripped(s);
    if '/' in r then r else r + "/"
  }

  /** remove_trailing brings the working text back to the canonical one. */
  lemma TrimWorks(s: string, l: Location)
    requires Proper(l) && Working(s, l)
    ensures Trimmed(s) == Text(l)
  {
    TextEnd(l);
    if l.names != [] {
      assert Stripped(Text(l)) == Text(l);
      assert (Text(l) + "/")[..|Text(l)|] == Text(l);
    } else {
      var d := l.disk + ":";
      assert s == d + "/" && s[..|s| - 1] == d;
      assert Stripped(s) == Stripped(d) == d;
    }
  }

  /** is_absolute, with ASCII letters and digits. */
  predicate IsAbsolute(path: string) {
    Marks(path) == 1 && FirstMark(path) > 0 && IsAlphanumeric(path[0])
  }

  predicate IsAlphanumeric(c: char) {
    '0' <= c <= '9' || 'a' <= c <= 'z' || 'A' <= c <= 'Z'
  }

  /** No segment of a relative path ends in a colon. */
  predicate PlainPath(path: string) {
    NoColon(Split(path))
  }

  lemma LongerEndsSame(c: char, s: string)
    ensures EndsWith(s, ':') ==> EndsWith([c] + s, ':')
  {
  }

  /** Such a path has no mark, so it is not absolute. */
  lemma {:induction false} PlainPathHasNoMark(path: string)
    requires PlainPath(path)
    ensures FirstMark(path) == |path| && !IsAbsolute(path)
    decreases |path|
  {
    if |path| >= 2 {
      var r := Split(path);
      var q := Split(path[1..]);
      if path[0] == '/' {
        assert r[1..] == q;
        assert forall k | 0 <= k < |q| :: q[k] == r[k + 1];
      } else {
        assert r[0] == [path[0]] + q[0];
        assert forall k | 1 <= k < |q| :: q[k] == r[k];
        if path[1] == '/' { assert q[0] == []; }
        LongerEndsSame(path[0], q[0]);
      }
      PlainPathHasNoMark(path[1..]);
    }
  }

  // ------------------------------------------------------- apply on strings

  function StepText(s: string, seg: string): string {
    if seg == "." || seg == "" then s
    else if seg == ".." then Parent(Trimmed(s))
    else PushText(s, seg)
  }

  function StepAll(s: string, segs: seq<string>): string {
    if segs == [] then s else StepText(StepAll(s, segs[..|segs| - 1]), segs[|segs| - 1])
  }

  function ApplyText(s: string, path: string): string {
    if IsAbsolute(path) then Trimmed(path) else Trimmed(StepAll(s, Split(path)))
  }

  // ------------------------------------------------------- the path object

  class Path {
    var buffer: string

    constructor (text: string)
      ensures buffer == text
    {
      buffer := text;
    }

    method RemoveTrailing()
      modifies this
      ensures buffer == Trimmed(old(buffer))
    {
      while EndsWith(buffer, '/')
        invariant Stripped(buffer) == Stripped(old(buffer))
        decreases |buffer|
      {
        buffer := buffer[..|buffer| - 1];
      }
      if '/' !in buffer {
        buffer := buffer + "/";
      }
    }

    method ToParent()
      modifies this
      ensures buffer == Parent(old(buffer))
    {
      var segs := Split(PathPart(buffer));
      buffer := DiskName(buffer) + ":/" + Join(segs[..|segs| - 1]);
    }

    /** One round of the loop in apply. */
    method ApplySegment(seg: string)
      modifies this
      ensures buffer == StepText(old(buffer), seg)
    {
      if seg == "." {
        return;
      } else if seg == ".." {
        RemoveTrailing();
        ToParent();
      } else if seg == "" {
        return;
      } else {
        if !EndsWith(buffer, '/') {
          buffer := buffer + "/";
        }
        buffer := buffer + seg;
        buffer := buffer + "/";
      }
    }

    /** apply */
    method Apply(path: string)
      modifies this
      ensures buffer == ApplyText(old(buffer), path)
    {
      if IsAbsolute(path) {
        buffer := path;
        RemoveTrailing();
        return;
      }
      var segs := Split(path);
      var k := 0;
      while k < |segs|
        invariant k <= |segs|
        invariant buffer == StepAll(old(buffer), segs[..k])
      {
        ApplySegment(segs[k]);
        assert segs[..k + 1][..k] == segs[..k];
        k := k + 1;
      }
      assert segs[..k] == segs;
      RemoveTrailing();
    }
  }

  // ------------------------------------------------------- apply refines the stack

  lemma NoColonMeansNoMark(names: seq<string>)
    requires NoColon(names)
    ensures ColonName(names) == |names|
  {
  }

  lemma StepWorks(s: string, l: Location, seg: string)
    requires Plain(l) && Working(s, l) && '/' !in seg && !EndsWith(seg, ':')
    ensures var m := l.(names := WalkOne(l.names, seg)); Plain(m) && Working(StepText(s, seg), m)
  {
    WalkOnePlain(l, seg);
    if seg == ".." {
      TrimWorks(s, l);
      NoColonMeansNoMark(l.names);
      ParentOfText(l);
    } else if seg != "." && seg != "" {
      PushWorks(s, l, seg);
    }
  }

  lemma {:induction false} StepsWork(s: string, l: Location, segs: seq<string>)
    requires Plain(l) && Working(s, l) && NoSlash(segs) && NoColon(segs)
    ensures var m := l.(names := Walk(l.names, segs)); Plain(m) && Working(StepAll(s, segs), m)
    decreases |segs|
  {
    if segs != [] {
      var n := |segs| - 1;
      StepsWork(s, l, segs[..n]);
      StepWorks(StepAll(s, segs[..n]), l.(names := Walk(l.names, segs[..n])), segs[n]);
    }
  }

  /**
    apply with a relative path refines the stack: the disk stays, the names
    walk, and the text is canonical again.
   */
  lemma ApplyRefinesStack(l: Location, path: string)
    requires Plain(l) && PlainPath(path)
    ensures var m := l.(names := Walk(l.names, Split(path)));
            Plain(m) && ApplyText(Text(l), path) == Text(m)
  {
    PlainPathHasNoMark(path);
    SegmentsHaveNoSlash(path);
    StepsWork(Text(l), l, Split(path));
    TrimWorks(StepAll(Text(l), Split(path)), l.(names := Walk(l.names, Split(path))));
  }

  /** The disk name never changes under a relative path. */
  lemma ApplyKeepsDisk(l: Location, path: string)
    requires Plain(l) && PlainPath(path)
    ensures DiskName(ApplyText(Text(l), path)) == l.disk
  {
    ApplyRefinesStack(l, path);
    PartsOfText(l.(names := Walk(l.names, Split(path))));
  }

  /** apply("a/b") is apply("a") and then apply("b"). */
  lemma ApplyComposes(l: Location, p: string, q: string)
    requires Plain(l) && PlainPath(p) && PlainPath(q)
    ensures ApplyText(Text(l), p + "/" + q) == ApplyText(ApplyText(Text(l), p), q)
  {
    SplitAppend(p, q);
    WalkAppend(l.names, Split(p), Split(q));
    ApplyRefinesStack(l, p + "/" + q);
    ApplyRefinesStack(l, p);
    ApplyRefinesStack(l.(names := Walk(l.names, Split(p))), q);
  }

  /** Joined names hold a mark exactly if one but the last ends in a colon. */
  lemma {:induction false} NoMarkExactly(names: seq<string>)
    requires NoSlash(names)
    ensures FirstMark(Join(names)) == |Join(names)| <==> forall j | 0 <= j < |names| - 1 :: !EndsWith(names[j], ':')
    decreases |names|
  {
    if |names| == 1 {
      MarkAcross(names[0], []);
    } else if |names| > 1 {
      var rest := names[1..];
      MarkAcross(names[0], Join(rest));
      NoMarkExactly(rest);
      assert (forall j | 0 <= j < |names| - 1 :: !EndsWith(names[j], ':')) <==>
          !EndsWith(names[0], ':') && forall j | 0 <= j < |rest| - 1 :: !EndsWith(rest[j], ':') by {
        assert forall j | 1 <= j < |names| :: names[j] == rest[j - 1];
        assert forall j | 0 <= j < |rest| :: rest[j] == names[j + 1];
      }
    }
  }

  /** A canonical text counts as absolute exactly if no name but the last ends in a colon; otherwise it is appended. */
  lemma AbsoluteExactly(l: Location)
    requires Proper(l) && l.disk != [] && IsAlphanumeric(l.disk[0])
    ensures IsAbsolute(Text(l)) <==> forall j | 0 <= j < |l.names| - 1 :: !EndsWith(l.names[j], ':')
  {
    var a, rest := l.disk + ":", Join(l.names);
    assert Text(l) == a + "/" + rest;
    MarkAcross(a, rest);
    assert Text(l)[|l.disk| + 2..] == rest;
    NoMarkExactly(l.names);
    assert Marks(Text(l)) == 1 + Marks(rest);
  }

  /** It happens: "R:/x:/y" does not. */
  lemma ColonNameNotAbsolute(l: Location)
    requires l == Location("R", ["x:", "y"])
    ensures !IsAbsolute(Text(l))
  {
    assert EndsWith(l.names[0], ':');
    AbsoluteExactly(l);
  }

  function Slashes(n: nat): (s: string)
    ensures |s| == n && forall k | 0 <= k < n :: s[k] == '/'
  {
    seq(n, _ => '/')
  }

  /** An absolute path replaces the location, however many slashes trail it. */
  lemma ApplyAbsolute(s: string, l: Location, path: string, n: nat)
    requires Plain(l) && l.disk != [] && IsAlphanumeric(l.disk[0]) && path == Text(l) + Slashes(n)
    ensures ApplyText(s, path) == Text(l)
  {
    StrippedSlashes(Text(l), n);
    TrimWorks(Text(l), l);
    MarksWithSlashes(path, l, n);
  }

  lemma {:induction false} StrippedSlashes(s: string, n: nat)
    ensures Stripped(s + Slashes(n)) == Stripped(s)
    decreases n
  {
    var t := s + Slashes(n);
    if n == 0 {
      assert t == s;
    } else {
      assert t[..|t| - 1] == s + Slashes(n - 1);
      StrippedSlashes(s, n - 1);
    }
  }

  lemma {:induction false} SlashesHaveNoMark(n: nat)
    ensures FirstMark(Slashes(n)) == n
  {
    if n >= 2 {
      assert Slashes(n)[1..] == Slashes(n - 1);
      SlashesHaveNoMark(n - 1);
    }
  }

  lemma MarksWithSlashes(path: string, l: Location, n: nat)
    requires Plain(l) && path == Text(l) + Slashes(n)
    ensures Marks(path) == 1 && FirstMark(path) == |l.disk|
  {
    var a, rest := l.disk + ":", Join(l.names) + Slashes(n);
    assert path == a + "/" + rest;
    MarkAcross(a, rest);
    assert path[|l.disk| + 2..] == rest;
    JoinThenSlashes(l.names, n);
  }

  lemma {:induction false} JoinThenSlashes(names: seq<string>, n: nat)
    requires NoSlash(names) && NoColon(names)
    ensures FirstMark(Join(names) + Slashes(n)) == |Join(names)| + n
    decreases |names|
  {
    var s := Join(names) + Slashes(n);
    if names == [] {
      assert s == Slashes(n);
      SlashesHaveNoMark(n);
    } else if |names| == 1 {
      if n == 0 {
        assert s == names[0];
        MarkAcross(names[0], []);
      } else {
        assert s == names[0] + "/" + Slashes(n - 1);
        MarkAcross(names[0], Slashes(n - 1));
        SlashesHaveNoMark(n - 1);
      }
    } else {
      JoinThenSlashes(names[1..], n);
      assert s == names[0] + "/" + (Join(names[1..]) + Slashes(n));
      MarkAcross(names[0], Join(names[1..]) + Slashes(n));
    }
  }

  /** A name steps down to it; "." and the empty path stay. */
  lemma DownAndStay(l: Location, n: string)
    requires Plain(l) && n !in {".", "..", ""} && '/' !in n && !EndsWith(n, ':')
    ensures ApplyText(Text(l), n) == Text(l.(names := l.names + [n]))
    ensures ApplyText(Text(l), ".") == Text(l) && ApplyText(Text(l), "") == Text(l)
  {
    SplitFirst(n, []);
    SplitFirst(".", []);
    SplitFirst("", []);
    ApplyRefinesStack(l, n);
    ApplyRefinesStack(l, ".");
    ApplyRefinesStack(l, "");
    WalkSingle(l.names, n);
    WalkSingle(l.names, ".");
    WalkSingle(l.names, "");
  }

  /** ".." leaves the root alone and undoes any step down. */
  lemma UpFromRootAndBack(l: Location, n: string)
    requires Plain(l) && n !in {".", "..", ""} && '/' !in n && !EndsWith(n, ':')
    ensures l.names == [] ==> ApplyText(Text(l), "..") == Text(l)
    ensures ApplyText(ApplyText(Text(l), n), "..") == Text(l)
  {
    SplitFirst("..", []);
    SplitFirst(n, []);
    ApplyRefinesStack(l, "..");
    ApplyRefinesStack(l, n);
    var m := l.(names := l.names + [n]);
    WalkSingle(l.names, n);
    WalkSingle(l.names, "..");
    WalkSingle(m.names, "..");
    ApplyRefinesStack(m, "..");
    assert (l.names + [n])[..|l.names|] == l.names;
  }

  lemma WalkSingle(names: seq<string>, seg: string)
    ensures Walk(names, [seg]) == WalkOne(names, seg)
  {
    var one := [seg];
    assert one[..0] == [];
  }

  /**
    Without the condition on colons: ".." steps to the parent directory
    exactly when no name but the last ends in a colon.
   */
  lemma ApplyUpExactly(l: Location, up: string)
    requires Proper(l) && l.names != [] && up == ".."
    ensures ApplyText(Text(l), up) == Text(l.(names := l.names[..|l.names| - 1]))
            <==> forall j | 0 <= j < |l.names| - 1 :: !EndsWith(l.names[j], ':')
  {
    SplitFirst(up, []);
    MarkAcross(up, []);
    var one := [up];
    assert one[..0] == [];
    assert StepAll(Text(l), one) == StepText(Text(l), up);
    TrimWorks(Text(l), l);
    ParentOfText(l);
    var k := ColonName(l.names);
    var m := l.(names := if k < |l.names| then l.names[..k] else l.names[..|l.names| - 1]);
    TrimWorks(Text(m), m);
    ParentIsParent(l);
  }

  /** A name such as "x:" above the last one sends ".." too far up. */
  lemma ColonNameGoesTooFar(l: Location, up: string)
    requires l == Location("C", ["x:", "y"]) && up == ".."
    ensures Proper(l) && ApplyText(Text(l), up) != Text(l.(names := l.names[..1]))
  {
    assert EndsWith(l.names[0], ':');
    ApplyUpExactly(l, up);
  }
}
