/** What the memory operations of kernel/src/lib/string.c mean, byte by byte. */
module MemText {
  import opened Bits
  import opened ByteRanges

  /** Byte i of a word. */
  function ByteOf(w: nat, i: nat): Byte
    requires i < 4
  {
    (if i == 0 then w % 256
     else if i == 1 then w / 256 % 256
     else if i == 2 then w / 65536 % 256
     else w / 16777216 % 256) as Byte
  }

  function WordOf(b: seq<Byte>): nat
    requires |b| == 4
  {
    b[0] as nat + 256 * b[1] as nat + 65536 * b[2] as nat + 16777216 * b[3] as nat
  }

  function BytesOf(w: nat): seq<Byte> { [ByteOf(w, 0), ByteOf(w, 1), ByteOf(w, 2), ByteOf(w, 3)] }

  lemma BytesOfWord(b: seq<Byte>)
    requires |b| == 4
    ensures BytesOf(WordOf(b)) == b
  {
    var w, x, y, z := b[0] as nat, b[1] as nat, b[2] as nat, b[3] as nat;
    ModUnique(WordOf(b), 256, x + 256 * y + 65536 * z, w);
    ModUnique(x + 256 * y + 65536 * z, 256, y + 256 * z, x);
    ModUnique(y + 256 * z, 256, z, y);
    ModUnique(WordOf(b), 65536, y + 256 * z, w + 256 * x);
    ModUnique(WordOf(b), 16777216, z, w + 256 * x + 65536 * y);
  }

  /** While n bytes are copied, the first k are there. */
  ghost predicate Copied(before: seq<Byte>, now: seq<Byte>, dest: nat, src: nat, k: nat) {
    && dest + k <= |before| && src + k <= |before|
    && now == Splice(before, dest, before[src..src + k])
  }

  /** Copying one more piece from a source the destination does not touch. */
  lemma CopiedMore(before: seq<Byte>, now: seq<Byte>, after: seq<Byte>, dest: nat, src: nat, k: nat, m: nat)
    requires Copied(before, now, dest, src, k) && dest + k + m <= |before| && src + k + m <= |before|
    requires dest <= src || src + k + m <= dest
    requires after == Splice(now, dest + k, now[src + k..src + k + m])
    ensures Copied(before, after, dest, src, k + m)
  {
    assert now[src + k..src + k + m] == before[src + k..src + k + m];
    SpliceNext(before, dest, before[src..src + k], before[src + k..src + k + m]);
    assert before[src..src + k] + before[src + k..src + k + m] == before[src..src + k + m];
  }

  /** While copying downwards, the last k of n bytes are there. */
  ghost predicate CopiedEnd(before: seq<Byte>, now: seq<Byte>, dest: nat, src: nat, n: nat, k: nat) {
    && k <= n && dest + n <= |before| && src + n <= |before|
    && now == Splice(before, dest + (n - k), before[src + (n - k)..src + n])
  }

  lemma CopiedEndMore(before: seq<Byte>, now: seq<Byte>, dest: nat, src: nat, n: nat, k: nat)
    requires CopiedEnd(before, now, dest, src, n, k) && k < n && src < dest
    ensures var at := n - k - 1;
            CopiedEnd(before, Splice(now, dest + at, now[src + at..src + at + 1]), dest, src, n, k + 1)
  {
    var at := n - k - 1;
    assert now[src + at] == before[src + at];
    assert now[src + at..src + at + 1] == [before[src + at]];
    assert before[src + at..src + n] == [before[src + at]] + before[src + at + 1..src + n];
  }

  function Repeated(b: Byte, n: nat): (s: seq<Byte>)
    ensures |s| == n && forall k | 0 <= k < n :: s[k] == b
  {
    seq(n, k => b)
  }

  /** The first k bytes of an area are set. */
  ghost predicate Set(before: seq<Byte>, now: seq<Byte>, at: nat, b: Byte, k: nat) {
    at + k <= |before| && now == Splice(before, at, Repeated(b, k))
  }

  lemma SetMore(before: seq<Byte>, now: seq<Byte>, at: nat, b: Byte, k: nat, m: nat)
    requires Set(before, now, at, b, k) && at + k + m <= |before|
    ensures Set(before, Splice(now, at + k, Repeated(b, m)), at, b, k + m)
  {
    SpliceNext(before, at, Repeated(b, k), Repeated(b, m));
    assert Repeated(b, k) + Repeated(b, m) == Repeated(b, k + m);
  }
}
