/** The loop of kernel/src/lib/utf_conversion.c, filling a buffer. */
module Utf {
  import opened UtfText

  /** The code points from unit i on; a surrogate at the end steps behind it. */
  ghost function PointsFrom(u: seq<Unit>, i: nat, beyond: Unit): seq<nat> {
    if i < |u| then Points(u[i..], beyond) else []
  }

  /** The first half of the loop: one code point. */
  method NextPoint(u: seq<Unit>, i: nat, beyond: Unit) returns (c: nat, next: nat)
    requires i < |u|
    ensures i < next && PointsFrom(u, i, beyond) == [c] + PointsFrom(u, next, beyond)
  {
    ghost var rest := u[i..];
    if !Surrogate(u[i]) {
      c, next := u[i], i + 1;
      assert rest[1..] == u[i + 1..];
    } else {
      var low := if i + 1 < |u| then u[i + 1] else beyond;
      c, next := Paired(u[i], low), i + 2;
      if i + 1 < |u| { assert rest[2..] == u[i + 2..]; }
    }
  }

  /** Stores some bytes at j and leaves the rest of the buffer alone. */
  method Store(out: array<nat>, j: nat, bytes: seq<nat>)
    requires j + |bytes| <= out.Length
    modifies out
    ensures out[..] == old(out[..])[..j] + bytes + old(out[..])[j + |bytes|..]
  {
    var k := 0;
    while k < |bytes|
      invariant 0 <= k <= |bytes|
      invariant forall m | 0 <= m < out.Length ::
                  out[m] == if j <= m < j + k then bytes[m - j] else old(out[m])
    {
      out[j + k] := bytes[k];
      k := k + 1;
    }
  }

  /** A buffer whose front holds a. */
  ghost function Filled(before: seq<nat>, a: seq<nat>): seq<nat>
    requires |a| <= |before|
  {
    a + before[|a|..]
  }

  lemma FilledNext(before: seq<nat>, a: seq<nat>, b: seq<nat>)
    requires |a| + |b| <= |before|
    ensures Filled(before, a)[..|a|] + b + Filled(before, a)[|a| + |b|..] == Filled(before, a + b)
  {
  }

  /** The second half of the loop: the bytes of one code point. */
  method StorePoint(out: array<nat>, j: nat, c: nat, ghost before: seq<nat>, ghost done: seq<nat>) returns (next: nat)
    requires j == |Utf8All(done)| && |Utf8All(done + [c])| <= |before| == out.Length
    requires Utf8All(done + [c]) == Utf8All(done) + Utf8(c)
    requires out[..] == Filled(before, Utf8All(done))
    modifies out
    ensures next == |Utf8All(done + [c])| && out[..] == Filled(before, Utf8All(done + [c]))
  {
    var bytes := Utf8(c);
    FilledNext(before, Utf8All(done), bytes);
    Store(out, j, bytes);
    next := j + |bytes|;
  }

  /** utf16_to_utf8: fills the front of the buffer with the converted text, no more. */
  method Utf16ToUtf8(u: seq<Unit>, beyond: Unit, out: array<nat>)
    requires |Converted(u, beyond)| <= out.Length
    modifies out
    ensures out[..] == Filled(old(out[..]), Converted(u, beyond))
  {
    ghost var before, done, all := out[..], [], Points(u, beyond);
    var i: nat, j: nat := 0, 0;
    assert u[0..] == u;
    while i < |u|
      invariant all == done + PointsFrom(u, i, beyond)
      invariant j == |Utf8All(done)| <= |before| == out.Length
      invariant out[..] == Filled(before, Utf8All(done))
    {
      var c, next := NextPoint(u, i, beyond);
      FitsNext(done, c, PointsFrom(u, next, beyond));
      j := StorePoint(out, j, c, before, done);
      i, done := next, done + [c];
    }
    assert done + [] == done;
  }

  lemma FitsNext(done: seq<nat>, c: nat, tail: seq<nat>)
    ensures Utf8All(done + [c]) == Utf8All(done) + Utf8(c)
    ensures done + ([c] + tail) == done + [c] + tail
    ensures |Utf8All(done)| + |Utf8(c)| <= |Utf8All(done + ([c] + tail))|
  {
    Utf8AllAppend(done, c);
    Utf8AllConcat(done + [c], tail);
    assert done + ([c] + tail) == done + [c] + tail;
  }
}
