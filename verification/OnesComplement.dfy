/**
  Sixteen-bit one's complement arithmetic: end-around carry, the fold loop and
  byte swapping, all as residues modulo 65535.
 */
module OnesComplement {
  import opened Bits

  /** One's complement addition: the carry comes back in at the low end. */
  function OnesAdd(a: nat, b: nat): nat {
    if a + b >= 65536 then a + b - 65535 else a + b
  }

  function Complement(a: nat): int { 65535 - a }

  // ------------------------------------------------------- residues

  /** The representative of n modulo 65535 that one's complement sums end in: 0 only for 0. */
  function Residue(n: nat): (r: nat)
    ensures r <= 65535 && (r == 0 <==> n == 0)
  {
    if n == 0 then 0 else (n - 1) % 65535 + 1
  }

  lemma ResidueAdd(n: nat, b: nat)
    requires b <= 65535
    ensures OnesAdd(Residue(n), b) == Residue(n + b)
  {
  }

  /** The fold loop: carries are added in until none is left. */
  function Fold(n: nat): nat {
    if n / 65536 == 0 then n else Fold(n % 65536 + n / 65536)
  }

  /** Residues do not see multiples of 65535, as long as nothing turns into zero. */
  lemma ResidueShift(n: nat, m: nat, q: int)
    requires n == m + 65535 * q && (n == 0 <==> m == 0)
    ensures Residue(n) == Residue(m)
  {
    if n > 0 {
      ModUnique(n - 1, 65535, (m - 1) / 65535 + q, (m - 1) % 65535);
    }
  }

  lemma FoldStep(n: nat)
    ensures Residue(n % 65536 + n / 65536) == Residue(n)
  {
    ResidueShift(n, n % 65536 + n / 65536, n / 65536);
  }

  lemma {:induction false} FoldIsResidue(n: nat)
    ensures Fold(n) == Residue(n)
    decreases n
  {
    if n / 65536 != 0 {
      FoldStep(n);
      FoldIsResidue(n % 65536 + n / 65536);
    }
  }

  method FoldLoop(start: nat) returns (sum: nat)
    ensures sum == Fold(start) && sum < 65536
  {
    sum := start;
    while sum / 65536 != 0
      invariant Fold(sum) == Fold(start)
      decreases sum
    {
      sum := sum % 65536 + sum / 65536;
    }
  }

  lemma ResidueOfChecked(t: nat)
    ensures Residue(t + (65535 - Residue(t))) == 65535
  {
    if t > 0 {
      var q := (t - 1) / 65535;
      assert t - 1 == 65535 * q + (t - 1) % 65535;
      ModUnique(t + 65535 - Residue(t) - 1, 65535, q, 65534);
    }
  }

  // ------------------------------------------------------- byte order

  /** bit_flip_short */
  function Swap(w: nat): nat
    requires w < 65536
  {
    w % 256 * 256 + w / 256
  }

  lemma SwapIsTimes256(w: nat)
    requires w < 65536
    ensures 256 * w == Swap(w) + 65535 * (w / 256) && (Swap(w) == 0 <==> w == 0) && Swap(w) < 65536
  {
    assert w == 256 * (w / 256) + w % 256;
  }

  lemma SwapResidue(w: nat)
    requires w < 65536
    ensures Residue(Swap(w)) == Swap(w)
  {
    SwapIsTimes256(w);
  }

  /** If u is 256 times t up to multiples of 65535, its residue is the swapped residue of t. */
  lemma SwapOfResidue(t: nat, u: nat, q: int)
    requires 256 * t == u + 65535 * q && (u == 0 <==> t == 0)
    ensures Residue(u) == Swap(Residue(t))
  {
    var r := Residue(t);
    var k := if t == 0 then 0 else (t - 1) / 65535;
    assert t == r + 65535 * k;
    SwapIsTimes256(r);
    ResidueShift(u, Swap(r), 256 * k + r / 256 - q);
    SwapResidue(r);
  }

  lemma SwapBytes(l: Byte, h: Byte)
    ensures Swap(l as nat + 256 * h as nat) == 256 * l as nat + h as nat
  {
    ModUnique(l as nat + 256 * h as nat, 256, h as nat, l as nat);
  }

  lemma SwapComplement(w: nat)
    requires w < 65536
    ensures Swap(65535 - w) == 65535 - Swap(w)
  {
    var h, l := w / 256, w % 256;
    assert w == 256 * h + l;
    ModUnique(65535 - w, 256, 255 - h, 255 - l);
  }

  lemma SwapSwap(w: nat)
    requires w < 65536
    ensures Swap(w) < 65536 && Swap(Swap(w)) == w
  {
    var h, l := w / 256, w % 256;
    ModUnique(Swap(w), 256, l, h);
  }

  lemma SwapInjective(v: nat, w: nat)
    requires v < 65536 && w < 65536
    ensures Swap(v) == Swap(w) <==> v == w
  {
    SwapSwap(v);
    SwapSwap(w);
  }

  // ------------------------------------------------------- a single fold

  /** One fold only; the complement is cut to 16 bits. */
  function FoldOnce(n: nat): nat { (n % 65536 + n / 65536) % 65536 }

  /** A single fold does the work of the loop exactly if adding the carry gives no new one. */
  lemma SingleFoldExactly(n: nat)
    requires n < 0x1_0000_0000
    ensures FoldOnce(n) == Fold(n) <==> n % 65536 + n / 65536 < 65536
  {
    var m := n % 65536 + n / 65536;
    if n / 65536 == 0 {
      assert n % 65536 == n;
    } else if m >= 65536 {
      assert Fold(n) == Fold(m);
      assert m / 65536 == 1;
      FoldIsResidue(m);
    }
  }

  /** With t the sum of the words and n the sum of the swapped words of a header. */
  lemma FoldedHeader(t: nat, n: nat)
    requires n < 0x1_0000_0000 && Residue(n) == Swap(Residue(t))
    ensures 0 <= Complement(FoldOnce(n)) < 65536
    ensures Swap(Complement(FoldOnce(n))) == Complement(Residue(t)) <==> n % 65536 + n / 65536 < 65536
  {
    FoldIsResidue(n);
    SingleFoldExactly(n);
    SwapComplement(FoldOnce(n));
    SwapSwap(Residue(t));
    SwapInjective(FoldOnce(n), Residue(n));
  }
}
