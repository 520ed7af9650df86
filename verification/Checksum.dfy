/**
  The Internet checksum: checksum of kernel/src/net/tcp.c and ipv4_checksum of
  kernel/src/net/ipv4.c, against the one's complement sum of RFC 1071,
  sections 1 and 2. The processor is little-endian.
 */
module Checksum {
  import opened Bits
  import opened OnesComplement

  /** The 16-bit words of some data in memory order, an odd byte padded with zero. */
  function Words(data: seq<Byte>): (ws: seq<nat>)
    ensures forall k | 0 <= k < |ws| :: ws[k] < 65536
    ensures |ws| == (|data| + 1) / 2
  {
    if |data| == 0 then []
    else if |data| == 1 then [data[0] as nat]
    else [data[0] as nat + 256 * data[1] as nat] + Words(data[2..])
  }

  function Total(ws: seq<nat>): nat {
    if ws == [] then 0 else ws[0] + Total(ws[1..])
  }

  /** The one's complement sum of some words, added to a. */
  function OnesSum(a: nat, ws: seq<nat>): nat
    decreases |ws|
  {
    if ws == [] then a else OnesSum(OnesAdd(a, ws[0]), ws[1..])
  }

  /** One's complement sums keep the residue of the ordinary sum, and nothing else. */
  lemma {:induction false} OnesSumIsResidue(n: nat, ws: seq<nat>)
    requires forall k | 0 <= k < |ws| :: ws[k] < 65536
    ensures OnesSum(Residue(n), ws) == Residue(n + Total(ws))
    decreases |ws|
  {
    if ws != [] {
      ResidueAdd(n, ws[0]);
      OnesSumIsResidue(n + ws[0], ws[1..]);
    }
  }

  // ------------------------------------------------------- the 32-bit accumulator

  /** The checksum of RFC 1071. */
  function Reference(data: seq<Byte>): int {
    Complement(OnesSum(0, Words(data)))
  }

  lemma {:induction false} TotalBound(ws: seq<nat>)
    requires forall k | 0 <= k < |ws| :: ws[k] < 65536
    ensures Total(ws) <= 65535 * |ws|
    decreases |ws|
  {
    if ws != [] { TotalBound(ws[1..]); }
  }

  /** The first at bytes, a whole number of words, and the rest. */
  lemma {:induction false} TotalSplit(data: seq<Byte>, at: nat)
    requires at % 2 == 0 && at <= |data|
    ensures Total(Words(data)) == Total(Words(data[..at])) + Total(Words(data[at..]))
    decreases at
  {
    if at == 0 {
      assert data[0..] == data;
    } else {
      TotalSplit(data[2..], at - 2);
      assert data[2..][..at - 2] == data[..at][2..] && data[2..][at - 2..] == data[at..];
      assert Words(data)[1..] == Words(data[2..]) && Words(data[..at])[1..] == Words(data[..at][2..]);
    }
  }

  lemma OnePair(data: seq<Byte>)
    requires |data| == 2
    ensures Total(Words(data)) == data[0] as nat + 256 * data[1] as nat
  {
    assert Words(data)[1..] == Words(data[2..]) == [];
  }

  lemma TotalNext(data: seq<Byte>, at: nat)
    requires at % 2 == 0 && at + 1 < |data|
    ensures Total(Words(data[..at + 2])) == Total(Words(data[..at])) + (data[at] as nat + 256 * data[at + 1] as nat)
  {
    var front := data[..at + 2];
    TotalSplit(front, at);
    assert front[..at] == data[..at];
    OnePair(front[at..]);
  }

  method SumWords(data: seq<Byte>) returns (sum: nat)
    ensures sum == Wrap32(Total(Words(data)))
  {
    sum := 0;
    var at: nat, len: nat := 0, |data|;
    while len > 1
      invariant at + len == |data| && at % 2 == 0
      invariant sum == Wrap32(Total(Words(data[..at])))
    {
      var word := data[at] as nat + 256 * data[at + 1] as nat;
      TotalNext(data, at);
      Wrap32Add(Total(Words(data[..at])), word);
      sum := Wrap32(sum + word);
      at, len := at + 2, len - 2;
    }
    TotalSplit(data, at);
    if len > 0 {
      OneWord(data[at..]);
      Wrap32Add(Total(Words(data[..at])), data[at] as nat);
      sum := Wrap32(sum + data[at] as nat);
    } else {
      assert data[..at] == data;
    }
  }

  /** tcp.c checksum */
  method TcpChecksum(data: seq<Byte>) returns (r: nat)
    ensures r == Computed(data)
    ensures |data| <= 131074 ==> r == Reference(data)
  {
    var sum := SumWords(data);
    sum := FoldLoop(sum);
    if |data| <= 131074 { ComputedIsReference(data); }
    r := Complement(sum);
  }

  lemma OneWord(data: seq<Byte>)
    requires |data| == 1
    ensures Total(Words(data)) == data[0] as nat
  {
    assert Words(data)[1..] == [];
  }

  /** What TcpChecksum computes. */
  function Computed(data: seq<Byte>): int {
    Complement(Fold(Wrap32(Total(Words(data)))))
  }

  lemma TotalFits(ws: seq<nat>)
    requires |ws| <= 65537 && forall k | 0 <= k < |ws| :: ws[k] < 65536
    ensures Total(ws) < 0x1_0000_0000
  {
    TotalBound(ws);
  }

  lemma OnesSumFromZero(ws: seq<nat>, zero: nat)
    requires zero == 0 && forall k | 0 <= k < |ws| :: ws[k] < 65536
    ensures OnesSum(zero, ws) == Residue(Total(ws))
  {
    OnesSumIsResidue(zero, ws);
  }

  lemma ReferenceIsResidue(data: seq<Byte>)
    ensures Reference(data) == Complement(Residue(Total(Words(data))))
  {
    OnesSumFromZero(Words(data), 0);
  }

  lemma ComputedIsResidue(data: seq<Byte>)
    ensures Computed(data) == Complement(Residue(Wrap32(Total(Words(data)))))
  {
    FoldIsResidue(Wrap32(Total(Words(data))));
  }

  /** Up to 131074 bytes the 32-bit sum holds and the code computes the reference. */
  lemma ComputedIsReference(data: seq<Byte>)
    requires |data| <= 131074
    ensures Computed(data) == Reference(data) && Total(Words(data)) < 0x1_0000_0000
  {
    TotalFits(Words(data));
    ReferenceIsResidue(data);
    ComputedIsResidue(data);
  }

  /** The words of this data add up to 2^32. */
  function Overflowing(n: nat): (data: seq<Byte>)
    requires n > 131074
    ensures |data| == n
  {
    seq(n, k => if k < 131074 then 255 else if k == 131074 then 1 else 0)
  }

  lemma {:induction false} TotalOfOnes(data: seq<Byte>, n: nat)
    requires 2 * n <= |data| && forall k | 0 <= k < 2 * n :: data[k] == 255
    ensures Total(Words(data)) == 65535 * n + Total(Words(data[2 * n..]))
    decreases n
  {
    if n > 0 {
      TotalOfOnes(data[2..], n - 1);
      assert data[2..][2 * (n - 1)..] == data[2 * n..];
      assert Words(data)[1..] == Words(data[2..]);
    } else {
      assert data[0..] == data;
    }
  }

  lemma {:induction false} TotalOfZeros(data: seq<Byte>)
    requires forall k | 0 <= k < |data| :: data[k] == 0
    ensures Total(Words(data)) == 0
    decreases |data|
  {
    if |data| == 1 {
      OneWord(data);
    } else if |data| > 1 {
      TotalOfZeros(data[2..]);
      assert Words(data)[1..] == Words(data[2..]);
    }
  }

  lemma OverflowingTotal(n: nat)
    requires n > 131074
    ensures Total(Words(Overflowing(n))) == 0x1_0000_0000
  {
    var data := Overflowing(n);
    TotalOfOnes(data, 65537);
    var rest := data[131074..];
    if |rest| == 1 {
      OneWord(rest);
    } else {
      TotalOfZeros(rest[2..]);
      assert Words(rest)[1..] == Words(rest[2..]);
    }
  }

  ghost predicate RightAtLength(n: nat) {
    forall data: seq<Byte> | |data| == n :: Computed(data) == Reference(data)
  }

  /** The code is right for all data of a length exactly up to 131074 bytes. */
  lemma RightExactly(n: nat)
    ensures RightAtLength(n) <==> n <= 131074
  {
    if n <= 131074 {
      forall data: seq<Byte> | |data| == n ensures Computed(data) == Reference(data) { ComputedIsReference(data); }
    } else {
      var data := Overflowing(n);
      OverflowingTotal(n);
      ComputedIsResidue(data);
      ReferenceIsResidue(data);
    }
  }

  // ------------------------------------------------------- checking a checksum

  /** The data with a word stored at byte offset at. */
  function WithWord(data: seq<Byte>, at: nat, w: nat): (r: seq<Byte>)
    requires at + 1 < |data| && w < 65536
    ensures |r| == |data|
  {
    data[at := (w % 256) as Byte][at + 1 := (w / 256) as Byte]
  }

  lemma {:induction false} TotalWithWord(data: seq<Byte>, at: nat, w: nat)
    requires at % 2 == 0 && at + 1 < |data| && w < 65536 && data[at] == 0 && data[at + 1] == 0
    ensures Total(Words(WithWord(data, at, w))) == Total(Words(data)) + w
    decreases at
  {
    var d := WithWord(data, at, w);
    assert Words(data)[1..] == Words(data[2..]) && Words(d)[1..] == Words(d[2..]);
    if at == 0 {
      assert d[2..] == data[2..];
      assert w == w % 256 + 256 * (w / 256);
    } else {
      TotalWithWord(data[2..], at - 2, w);
      assert d[2..] == WithWord(data[2..], at - 2, w);
    }
  }

  /** Storing the checksum in a zeroed, aligned field makes the checksum of the whole zero. */
  lemma StoredChecksumVerifies(data: seq<Byte>, at: nat)
    requires |data| <= 131074 && at % 2 == 0 && at + 1 < |data| && data[at] == 0 && data[at + 1] == 0
    ensures 0 <= Computed(data) < 65536
    ensures Computed(WithWord(data, at, Computed(data))) == 0
  {
    var t := Total(Words(data));
    TotalFits(Words(data));
    ComputedIsResidue(data);
    var c := Computed(data);
    TotalWithWord(data, at, c);
    TotalFits(Words(WithWord(data, at, c)));
    ComputedIsResidue(WithWord(data, at, c));
    ResidueOfChecked(t);
  }

  // ------------------------------------------------------- ipv4_checksum

  function Swapped(ws: seq<nat>): (r: seq<nat>)
    requires forall k | 0 <= k < |ws| :: ws[k] < 65536
    ensures |r| == |ws| && forall k | 0 <= k < |ws| :: r[k] == Swap(ws[k])
  {
    seq(|ws|, k requires 0 <= k < |ws| => Swap(ws[k]))
  }

  /** ipv4_checksum over the ten words of a header. */
  method Ipv4Checksum(header: seq<Byte>) returns (r: nat)
    requires |header| == 20
    ensures r == Complement(FoldOnce(Total(Swapped(Words(header)))))
  {
    var sum := SumSwapped(Words(header));
    var carry := sum / 65536;
    sum := sum % 65536;
    sum := sum + carry;
    r := Complement(sum % 65536);
  }

  method SumSwapped(ws: seq<nat>) returns (sum: nat)
    requires |ws| == 10 && forall k | 0 <= k < |ws| :: ws[k] < 65536
    ensures sum == Total(Swapped(ws))
  {
    ghost var all := Swapped(ws);
    sum := 0;
    var i := 0;
    assert all[0..] == all;
    while i < 10
      invariant 0 <= i <= 10
      invariant sum + Total(all[i..]) == Total(all)
    {
      assert all[i..][1..] == all[i + 1..];
      sum := sum + Swap(ws[i]);
      i := i + 1;
    }
  }

  lemma {:induction false} WordAt(data: seq<Byte>, k: nat)
    requires 2 * k + 1 < |data|
    ensures Words(data)[k] == data[2 * k] as nat + 256 * data[2 * k + 1] as nat
    decreases k
  {
    if k > 0 {
      WordAt(data[2..], k - 1);
      assert Words(data)[k] == Words(data[2..])[k - 1];
    }
  }

  /** An odd byte counts as a word with a zero byte behind it. */
  lemma {:induction false} OddPadding(data: seq<Byte>)
    requires |data| % 2 == 1
    ensures Words(data) == Words(data + [0])
    decreases |data|
  {
    var even := data + [0];
    if |data| == 1 {
      assert even[2..] == [];
    } else {
      OddPadding(data[2..]);
      assert even[2..] == data[2..] + [0];
    }
  }

  lemma SwappedOf(ws: seq<nat>, k: nat, l: Byte, h: Byte)
    requires forall k | 0 <= k < |ws| :: ws[k] < 65536
    requires k < |ws| && ws[k] == l as nat + 256 * h as nat
    ensures Swapped(ws)[k] == 256 * l as nat + h as nat
  {
    SwapBytes(l, h);
  }

  lemma SwappedAt(data: seq<Byte>, k: nat)
    requires 2 * k + 1 < |data|
    ensures Swapped(Words(data))[k] == 256 * data[2 * k] as nat + data[2 * k + 1] as nat
  {
    WordAt(data, k);
    SwappedOf(Words(data), k, data[2 * k], data[2 * k + 1]);
  }

  lemma TotalFrom(ws: seq<nat>, k: nat)
    requires k < |ws|
    ensures Total(ws[k..]) == ws[k] + Total(ws[k + 1..])
  {
    assert ws[k..][1..] == ws[k + 1..];
  }

  lemma TotalOfTen(ws: seq<nat>)
    requires |ws| == 10
    ensures Total(ws) == ws[0] + ws[1] + ws[2] + ws[3] + ws[4] + ws[5] + ws[6] + ws[7] + ws[8] + ws[9]
  {
    assert ws[0..] == ws && ws[10..] == [];
    TotalFrom(ws, 0);
    TotalFrom(ws, 1);
    TotalFrom(ws, 2);
    TotalFrom(ws, 3);
    TotalFrom(ws, 4);
    TotalFrom(ws, 5);
    TotalFrom(ws, 6);
    TotalFrom(ws, 7);
    TotalFrom(ws, 8);
    TotalFrom(ws, 9);
  }

  /** The header ipv4_send_packet builds for an empty TCP packet from 192.168.122.147 to 192.168.127.1. */
  predicate FailingHeader(h: seq<Byte>) {
    && |h| == 20
    && h[..10] == [0x45, 0, 0, 20, 0, 0, 0, 0, 64, 6]
    && h[10..] == [0, 0, 192, 168, 122, 147, 192, 168, 127, 1]
  }

  /** For it the single fold is wrong. */
  lemma SingleFoldFails(h: seq<Byte>)
    requires FailingHeader(h)
    ensures var n := Total(Swapped(Words(h))); n == 0x2FFFE && FoldOnce(n) != Fold(n)
  {
    var all := Swapped(Words(h));
    forall k | 0 <= k < 10
      ensures all[k] == 256 * h[2 * k] as nat + h[2 * k + 1] as nat
    {
      SwappedAt(h, k);
    }
    FailingBytes(h);
    TotalOfTen(all);
    SingleFoldExactly(Total(all));
  }

  lemma FailingBytes(h: seq<Byte>)
    requires FailingHeader(h)
    ensures h[0] == 0x45 && h[1] == 0 && h[2] == 0 && h[3] == 20 && h[4] == 0 && h[5] == 0 && h[6] == 0
    ensures h[7] == 0 && h[8] == 64 && h[9] == 6 && h[10] == 0 && h[11] == 0 && h[12] == 192 && h[13] == 168
    ensures h[14] == 122 && h[15] == 147 && h[16] == 192 && h[17] == 168 && h[18] == 127 && h[19] == 1
  {
    assert forall k | 0 <= k < 10 :: h[k] == h[..10][k];
    assert forall k | 10 <= k < 20 :: h[k] == h[10..][k - 10];
  }

  // ------------------------------------------------------- byte order

  /** The high bytes alone. */
  function Highs(ws: seq<nat>): nat {
    if ws == [] then 0 else ws[0] / 256 + Highs(ws[1..])
  }

  /** Swapping is multiplication by 256, up to multiples of 65535. */
  lemma {:induction false} SwappedTotal(ws: seq<nat>)
    requires forall k | 0 <= k < |ws| :: ws[k] < 65536
    ensures 256 * Total(ws) == Total(Swapped(ws)) + 65535 * Highs(ws)
    decreases |ws|
  {
    if ws != [] {
      SwappedTotal(ws[1..]);
      assert Swapped(ws)[1..] == Swapped(ws[1..]);
      SwapIsTimes256(ws[0]);
    }
  }

  lemma {:induction false} SwappedTotalZero(ws: seq<nat>)
    requires forall k | 0 <= k < |ws| :: ws[k] < 65536
    ensures Total(Swapped(ws)) == 0 <==> Total(ws) == 0
    decreases |ws|
  {
    if ws != [] {
      SwappedTotalZero(ws[1..]);
      assert Swapped(ws)[1..] == Swapped(ws[1..]);
      SwapIsTimes256(ws[0]);
    }
  }

  /** The sum does not depend on the byte order: summing swapped words swaps the sum. */
  lemma ByteOrderIndependent(ws: seq<nat>)
    requires forall k | 0 <= k < |ws| :: ws[k] < 65536
    ensures OnesSum(0, Swapped(ws)) == Swap(Residue(Total(ws)))
  {
    var t := Total(ws);
    OnesSumFromZero(Swapped(ws), 0);
    SwappedTotal(ws);
    SwappedTotalZero(ws);
    SwapOfResidue(t, Total(Swapped(ws)), Highs(ws));
  }

  /**
    The field ipv4_send_packet stores, the swapped result, is the checksum of
    the header exactly if the single fold was enough.
   */
  lemma HeaderChecksum(header: seq<Byte>)
    requires |header| == 20
    ensures var n := Total(Swapped(Words(header)));
            && 0 <= Complement(FoldOnce(n)) < 65536
            && (Swap(Complement(FoldOnce(n))) == Computed(header) <==> n % 65536 + n / 65536 < 65536)
  {
    var ws := Words(header);
    var t, n := Total(ws), Total(Swapped(ws));
    TotalBound(Swapped(ws));
    TotalFits(ws);
    ComputedIsResidue(header);
    OnesSumFromZero(Swapped(ws), 0);
    ByteOrderIndependent(ws);
    FoldedHeader(t, n);
  }
}
