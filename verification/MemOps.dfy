/**
  memcpy, memset and memmove of kernel/src/lib/string.c on one memory, indexed
  by address, against their byte-wise meaning. A machine word has four bytes,
  lowest first.
 */
module MemOps {
  import opened Bits
  import opened ByteRanges
  import opened MemText

  method LoadWord(mem: array<Byte>, at: nat) returns (w: nat)
    requires at + 4 <= mem.Length
    ensures BytesOf(w) == mem[at..at + 4]
  {
    BytesOfWord(mem[at..at + 4]);
    w := WordOf(mem[at..at + 4]);
  }

  method StoreWord(mem: array<Byte>, at: nat, w: nat)
    requires at + 4 <= mem.Length
    modifies mem
    ensures mem[..] == Splice(old(mem[..]), at, BytesOf(w))
  {
    mem[at] := ByteOf(w, 0);
    mem[at + 1] := ByteOf(w, 1);
    mem[at + 2] := ByteOf(w, 2);
    mem[at + 3] := ByteOf(w, 3);
  }

  // ------------------------------------------------------- memcpy

  method CopyByte(mem: array<Byte>, dest: nat, src: nat)
    requires dest < mem.Length && src < mem.Length
    modifies mem
    ensures mem[..] == Splice(old(mem[..]), dest, old(mem[..])[src..src + 1])
  {
    mem[dest] := mem[src];
  }

  method CopyWord(mem: array<Byte>, dest: nat, src: nat)
    requires dest + 4 <= mem.Length && src + 4 <= mem.Length
    modifies mem
    ensures mem[..] == Splice(old(mem[..]), dest, old(mem[..])[src..src + 4])
  {
    var w := LoadWord(mem, src);
    StoreWord(mem, dest, w);
  }

  method NextWord(mem: array<Byte>, dest: nat, src: nat, k: nat, ghost before: seq<Byte>)
    requires dest + k + 4 <= mem.Length && src + k + 4 <= mem.Length && (dest <= src || src + k + 4 <= dest)
    requires Copied(before, mem[..], dest, src, k)
    modifies mem
    ensures Copied(before, mem[..], dest, src, k + 4)
  {
    ghost var now := mem[..];
    CopyWord(mem, dest + k, src + k);
    CopiedMore(before, now, mem[..], dest, src, k, 4);
  }

  method NextByte(mem: array<Byte>, dest: nat, src: nat, k: nat, ghost before: seq<Byte>)
    requires dest + k < mem.Length && src + k < mem.Length && (dest <= src || src + k < dest)
    requires Copied(before, mem[..], dest, src, k)
    modifies mem
    ensures Copied(before, mem[..], dest, src, k + 1)
  {
    ghost var now := mem[..];
    CopyByte(mem, dest + k, src + k);
    CopiedMore(before, now, mem[..], dest, src, k, 1);
  }

  method CopyWords(mem: array<Byte>, dest: nat, src: nat, len: nat, ghost before: seq<Byte>)
    requires dest + 4 * len <= mem.Length && src + 4 * len <= mem.Length && (dest <= src || src + 4 * len <= dest)
    requires mem[..] == before
    modifies mem
    ensures Copied(before, mem[..], dest, src, 4 * len)
  {
    var i := 0;
    assert Copied(before, mem[..], dest, src, 0);
    while i < len
      invariant 0 <= i <= len && Copied(before, mem[..], dest, src, 4 * i)
    {
      NextWord(mem, dest, src, 4 * i, before);
      i := i + 1;
    }
  }

  /** Upwards from byte k on; nothing still to be read has been overwritten. */
  method CopyUp(mem: array<Byte>, dest: nat, src: nat, from: nat, n: nat, ghost before: seq<Byte>)
    requires dest + n <= mem.Length && src + n <= mem.Length && (dest <= src || src + n <= dest)
    requires from <= n && Copied(before, mem[..], dest, src, from)
    modifies mem
    ensures Copied(before, mem[..], dest, src, n)
  {
    var i := from;
    while i < n
      invariant from <= i <= n && Copied(before, mem[..], dest, src, i)
    {
      NextByte(mem, dest, src, i, before);
      i := i + 1;
    }
  }

  /** memcpy: words first, then the bytes of the tail. The areas do not overlap. */
  method Memcpy(mem: array<Byte>, dest: nat, src: nat, n: nat)
    requires dest + n <= mem.Length && src + n <= mem.Length && (dest + n <= src || src + n <= dest)
    modifies mem
    ensures mem[..] == Splice(old(mem[..]), dest, old(mem[..])[src..src + n])
  {
    ghost var before := mem[..];
    var len, tail := n / 4, n % 4;
    CopyWords(mem, dest, src, len, before);
    if tail != 0 {
      CopyUp(mem, dest, src, n - tail, n, before);
    }
  }

  // ------------------------------------------------------- memmove

  method PreviousByte(mem: array<Byte>, dest: nat, src: nat, n: nat, k: nat, ghost before: seq<Byte>)
    requires k < n && dest + n <= mem.Length && src < dest
    requires CopiedEnd(before, mem[..], dest, src, n, k)
    modifies mem
    ensures CopiedEnd(before, mem[..], dest, src, n, k + 1)
  {
    CopiedEndMore(before, mem[..], dest, src, n, k);
    CopyByte(mem, dest + n - 1 - k, src + n - 1 - k);
  }

  method CopyDown(mem: array<Byte>, dest: nat, src: nat, n: nat, ghost before: seq<Byte>)
    requires dest + n <= mem.Length && src + n <= mem.Length && src < dest && mem[..] == before
    modifies mem
    ensures CopiedEnd(before, mem[..], dest, src, n, n)
  {
    var k := 0;
    assert CopiedEnd(before, mem[..], dest, src, n, 0);
    while k < n
      invariant 0 <= k <= n && CopiedEnd(before, mem[..], dest, src, n, k)
    {
      PreviousByte(mem, dest, src, n, k, before);
      k := k + 1;
    }
  }

  /** memmove, on areas that may overlap in any way. */
  method Memmove(mem: array<Byte>, dest: nat, src: nat, count: nat)
    requires dest + count <= mem.Length && src + count <= mem.Length
    modifies mem
    ensures mem[..] == Splice(old(mem[..]), dest, old(mem[..])[src..src + count])
  {
    ghost var before := mem[..];
    if dest <= src || dest >= src + count {
      assert Copied(before, mem[..], dest, src, 0);
      CopyUp(mem, dest, src, 0, count, before);
    } else {
      CopyDown(mem, dest, src, count, before);
    }
  }

  // ------------------------------------------------------- memset

  /** The word with the byte in every place; or-ing disjoint bytes adds them. */
  method FillWord(b: Byte) returns (word: nat)
    ensures BytesOf(word) == Repeated(b, 4)
  {
    word := 0;
    if b != 0 {
      var i, shift := 0, 1;
      while i < 4
        invariant 0 <= i <= 4 && shift == [1, 256, 65536, 16777216, 0x1_0000_0000][i]
        invariant word == b as nat * [0, 1, 257, 65793, 16843009][i]
      {
        word := word + b as nat * shift;
        shift := shift * 256;
        i := i + 1;
      }
    }
    assert word == WordOf([b, b, b, b]);
    BytesOfWord([b, b, b, b]);
  }

  method StoreByte(mem: array<Byte>, at: nat, b: Byte)
    requires at < mem.Length
    modifies mem
    ensures mem[..] == Splice(old(mem[..]), at, Repeated(b, 1))
  {
    mem[at] := b;
  }

  /** memset: bytes up to a word boundary, whole words, then the rest. Word stores are aligned. */
  method Memset(mem: array<Byte>, ptr: nat, value: int, num: nat)
    requires ptr + num <= mem.Length
    modifies mem
    ensures mem[..] == Splice(old(mem[..]), ptr, Repeated((value % 256) as Byte, num))
  {
    ghost var before := mem[..];
    var b := (value % 256) as Byte;
    assert Set(before, mem[..], ptr, b, 0);
    var k := SetAligning(mem, ptr, b, num, before);
    if num - k >= 4 {
      k := SetWords(mem, ptr, b, num, k, before);
    }
    SetRest(mem, ptr, b, num, k, before);
  }

  method SetAligning(mem: array<Byte>, ptr: nat, b: Byte, num: nat, ghost before: seq<Byte>) returns (k: nat)
    requires ptr + num <= mem.Length == |before| && Set(before, mem[..], ptr, b, 0)
    modifies mem
    ensures k <= num && Set(before, mem[..], ptr, b, k) && ((ptr + k) % 4 == 0 || k == num)
  {
    k := 0;
    while (ptr + k) % 4 != 0 && k < num
      invariant k <= num && Set(before, mem[..], ptr, b, k)
      decreases num - k
    {
      SetMore(before, mem[..], ptr, b, k, 1);
      StoreByte(mem, ptr + k, b);
      k := k + 1;
    }
  }

  method SetRest(mem: array<Byte>, ptr: nat, b: Byte, num: nat, start: nat, ghost before: seq<Byte>)
    requires start <= num && ptr + num <= mem.Length == |before| && Set(before, mem[..], ptr, b, start)
    modifies mem
    ensures Set(before, mem[..], ptr, b, num)
  {
    var k := start;
    while k < num
      invariant start <= k <= num && Set(before, mem[..], ptr, b, k)
    {
      SetMore(before, mem[..], ptr, b, k, 1);
      StoreByte(mem, ptr + k, b);
      k := k + 1;
    }
  }

  method SetWord(mem: array<Byte>, ptr: nat, b: Byte, k: nat, word: nat, ghost before: seq<Byte>)
    requires ptr + k + 4 <= mem.Length && BytesOf(word) == Repeated(b, 4)
    requires Set(before, mem[..], ptr, b, k)
    modifies mem
    ensures Set(before, mem[..], ptr, b, k + 4)
  {
    SetMore(before, mem[..], ptr, b, k, 4);
    StoreWord(mem, ptr + k, word);
  }

  method SetWords(mem: array<Byte>, ptr: nat, b: Byte, num: nat, start: nat, ghost before: seq<Byte>) returns (k: nat)
    requires start <= num && (ptr + start) % 4 == 0 && ptr + num <= mem.Length == |before|
    requires Set(before, mem[..], ptr, b, start)
    modifies mem
    ensures start <= k <= num && num - k < 4 && Set(before, mem[..], ptr, b, k)
  {
    k := start;
    var word := FillWord(b);
    while num - k >= 4
      invariant start <= k <= num && (ptr + k) % 4 == 0 && Set(before, mem[..], ptr, b, k)
    {
      SetWord(mem, ptr, b, k, word, before);
      k := k + 4;
    }
  }
}
