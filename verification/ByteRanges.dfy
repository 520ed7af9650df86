/** Stretches of bytes in buffers, memory and disks. */
module ByteRanges {
  import opened Bits

  /** A flat array with `data` put at `at`. */
  function Splice(f: seq<Byte>, at: nat, data: seq<Byte>): seq<Byte>
    requires at + |data| <= |f|
  {
    f[..at] + data + f[at + |data|..]
  }

  /** Splicing behind a splice is one longer splice. */
  lemma SpliceNext(f: seq<Byte>, at: nat, a: seq<Byte>, b: seq<Byte>)
    requires at + |a| + |b| <= |f|
    ensures Splice(Splice(f, at, a), at + |a|, b) == Splice(f, at, a + b)
  {
  }

  /** So some data can go in piece by piece. */
  lemma SpliceGrows(f: seq<Byte>, at: nat, data: seq<Byte>, done: nat, next: nat)
    requires done <= next <= |data| && at + next <= |f|
    ensures Splice(Splice(f, at, data[..done]), at + done, data[done..next]) == Splice(f, at, data[..next])
  {
    SpliceNext(f, at, data[..done], data[done..next]);
    assert data[..done] + data[done..next] == data[..next];
  }

  /** Changing a window and writing it back changes just those bytes. */
  lemma SpliceWindow(f: seq<Byte>, from: nat, to: nat, off: nat, data: seq<Byte>)
    requires from <= to <= |f| && off + |data| <= to - from
    ensures Splice(f, from, Splice(f[from..to], off, data)) == Splice(f, from + off, data)
  {
  }

  lemma SliceOfSlice(f: seq<Byte>, from: nat, to: nat, off: nat, n: nat)
    requires from <= to <= |f| && off + n <= to - from
    ensures f[from..to][off..off + n] == f[from + off..from + off + n]
  {
    var x := f[from..to];
    var y, z := x[off..off + n], f[from + off..from + off + n];
    forall k | 0 <= k < n
      ensures y[k] == z[k]
    {
      assert y[k] == x[off + k];
    }
  }

  /** Stores a sequence into a buffer byte by byte. */
  method StoreBytes(buf: array<Byte>, at: nat, data: seq<Byte>)
    requires at + |data| <= buf.Length
    modifies buf
    ensures buf[..] == Splice(old(buf[..]), at, data)
  {
    var k := 0;
    while k < |data|
      invariant 0 <= k <= |data|
      invariant forall j | 0 <= j < buf.Length ::
                  buf[j] == if at <= j < at + k then data[j - at] else old(buf[j])
    {
      buf[at + k] := data[k];
      k := k + 1;
    }
  }

  /** memcpy(dst + at, src + from, n) between different buffers. */
  method CopyBytes(dst: array<Byte>, at: nat, src: array<Byte>, from: nat, n: nat)
    requires dst != src && at + n <= dst.Length && from + n <= src.Length
    modifies dst
    ensures dst[..] == Splice(old(dst[..]), at, src[from..from + n])
  {
    StoreBytes(dst, at, src[from..from + n]);
  }

  /** Bytes taken out of a copied window are the bytes it was copied from. */
  lemma WindowSlice(g: seq<Byte>, f: seq<Byte>, from: nat, to: nat, off: nat, n: nat)
    requires from <= to <= |f| && to - from <= |g| && g[..to - from] == f[from..to] && off + n <= to - from
    ensures g[off..off + n] == f[from + off..from + off + n]
  {
    SliceOfSlice(f, from, to, off, n);
    SliceOfSlice(g, 0, to - from, off, n);
    assert g[0..to - from] == g[..to - from];
  }

  /** What was put in can be taken out. */
  lemma SpliceTaken(f: seq<Byte>, at: nat, data: seq<Byte>)
    requires at + |data| <= |f|
    ensures Splice(f, at, data)[at..at + |data|] == data
  {
  }

  lemma WholeSplice(f: seq<Byte>, data: seq<Byte>)
    requires |data| == |f|
    ensures Splice(f, 0, data) == data
  {
  }

  /** The copy out of the raw sectors. */
  method CopyOut(ghost f: seq<Byte>, ghost from: nat, ghost to: nat,
                 raw: array<Byte>, off: nat, buf: array<Byte>, n: nat)
    requires raw != buf && from <= to <= |f| && to - from <= raw.Length && raw[..to - from] == f[from..to]
    requires off + n <= to - from && n <= buf.Length
    modifies buf
    ensures buf[..] == Splice(old(buf[..]), 0, f[from + off..from + off + n])
  {
    WindowSlice(raw[..], f, from, to, off, n);
    assert raw[off..off + n] == raw[..][off..off + n];
    CopyBytes(buf, 0, raw, off, n);
  }
}
