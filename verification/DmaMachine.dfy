/** Memory as the disk drivers use it: through the page map, while the controller goes past it. */
module DmaMachine {
  import opened Bits
  import opened ByteRanges
  import opened PageMapping
  import opened DmaMemory

  class Machine {
    var pages: PageMap
    var ram: Ram

    constructor (map_: PageMap, bytes: Ram)
      ensures pages == map_ && ram == bytes
    {
      pages, ram := map_, bytes;
    }

    /** memset(4096 * v, 0, n) */
    method Clear(v: nat, n: nat)
      requires Injective(pages) && MappedRange(pages, v, PagesOf(n))
      modifies this`ram
      ensures forall y | 0 <= y < n :: ByteAt(pages, ram, v, y) == 0
    {
      var k := 0;
      while k < n
        invariant 0 <= k <= n
        invariant forall y | 0 <= y < k :: ByteAt(pages, ram, v, y) == 0
      {
        var a := 4096 * v + k;
        PageWithin(v, n, k);
        assert a / 4096 == v + k / 4096;
        ghost var next := Poked(pages, ram, a, 0);
        forall y | 0 <= y < k + 1
          ensures ByteAt(pages, next, v, y) == 0
        {
          PokedByte(pages, ram, a, 0, 4096 * v + y);
          assert y < k ==> ByteAt(pages, ram, v, y) == 0;
        }
        ram := Poked(pages, ram, a, 0);
        k := k + 1;
      }
    }

    /** The controller stores `data` from physical address a on. */
    method Receive(a: nat, data: seq<Byte>)
      modifies this`ram
      ensures Received(old(ram), ram, a, data)
    {
      var r := ram;
      ram := (x: nat) => if a <= x < a + |data| then data[x - a] else r(x);
    }

    /** memcpy(buf + at, 4096 * v + off, n) into memory outside the buffer. */
    method CopyTo(buf: array<Byte>, at: nat, v: nat, off: nat, n: nat, ghost seen: seq<Byte>)
      requires at + n <= buf.Length && off + n <= |seen|
      requires forall y | 0 <= y < |seen| :: ByteAt(pages, ram, v, y) == seen[y]
      modifies buf
      ensures buf[..] == Splice(old(buf[..]), at, seen[off..off + n])
    {
      var k := 0;
      while k < n
        invariant 0 <= k <= n
        invariant forall j | 0 <= j < buf.Length ::
                    buf[j] == if at <= j < at + k then seen[off + (j - at)] else old(buf[j])
      {
        buf[at + k] := ByteAt(pages, ram, v, off + k);
        k := k + 1;
      }
    }
  }
}
