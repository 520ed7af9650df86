/**
  Machine-word arithmetic on natural numbers: single bits, the bitwise
  operators, and the rounding macro ALIGN of kernel/include/common.h.

  Words are naturals, so that the operators can be defined by recursion on
  their binary digits and every law about them is an ordinary induction.
 */
module Bits {

  /** One past the largest value of size_t and uint32_t on the 32-bit target. */
  const WORD: nat := 0x1_0000_0000

  type Byte = n: nat | n < 256

  function Pow2(k: nat): (p: nat)
    ensures p > 0
  {
    if k == 0 then 1 else 2 * Pow2(k - 1)
  }

  /** Whether bit k of n is set: ((n >> k) & 1) == 1. */
  predicate Bit(n: nat, k: nat) {
    if k == 0 then n % 2 == 1 else Bit(n / 2, k - 1)
  }

  function And(x: nat, y: nat): nat {
    if x == 0 || y == 0 then 0
    else 2 * And(x / 2, y / 2) + (if x % 2 == 1 && y % 2 == 1 then 1 else 0)
  }

  function Or(x: nat, y: nat): nat
    decreases x + y
  {
    if x == 0 then y
    else if y == 0 then x
    else 2 * Or(x / 2, y / 2) + (if x % 2 == 1 || y % 2 == 1 then 1 else 0)
  }

  lemma {:induction false} ZeroHasNoBits(k: nat)
    ensures !Bit(0, k)
  {
    if k > 0 { ZeroHasNoBits(k - 1); }
  }

  lemma {:induction false} BitOr(x: nat, y: nat, k: nat)
    ensures Bit(Or(x, y), k) <==> Bit(x, k) || Bit(y, k)
    decreases k
  {
    ZeroHasNoBits(k);
    if x != 0 && y != 0 && k > 0 {
      assert Or(x, y) / 2 == Or(x / 2, y / 2);
      BitOr(x / 2, y / 2, k - 1);
    }
  }

  lemma {:induction false} BitAnd(x: nat, y: nat, k: nat)
    ensures Bit(And(x, y), k) <==> Bit(x, k) && Bit(y, k)
    decreases k
  {
    ZeroHasNoBits(k);
    if x != 0 && y != 0 && k > 0 {
      assert And(x, y) / 2 == And(x / 2, y / 2);
      BitAnd(x / 2, y / 2, k - 1);
    }
  }

  lemma {:induction false} BitOfPow2(j: nat, k: nat)
    ensures Bit(Pow2(j), k) <==> j == k
    decreases k
  {
    if j == 0 {
      if k > 0 { ZeroHasNoBits(k - 1); }
    } else if k > 0 {
      BitOfPow2(j - 1, k - 1);
    }
  }

  /** The complement of x in a word of w bits flips every bit. */
  lemma {:induction false} BitComplement(w: nat, x: nat, k: nat)
    requires x < Pow2(w) && k < w
    ensures Bit(Pow2(w) - 1 - x, k) <==> !Bit(x, k)
    decreases w
  {
    var c: nat := Pow2(w) - 1 - x;
    assert c % 2 == 1 - x % 2;
    assert c / 2 == Pow2(w - 1) - 1 - x / 2;
    if k > 0 { BitComplement(w - 1, x / 2, k - 1); }
  }

  /** A word is determined by its bits. */
  lemma {:induction false} BitsDetermine(w: nat, x: nat, y: nat)
    requires x < Pow2(w) && y < Pow2(w)
    requires forall k | 0 <= k < w :: Bit(x, k) == Bit(y, k)
    ensures x == y
    decreases w
  {
    if w > 0 {
      assert Bit(x, 0) == Bit(y, 0);
      forall k | 0 <= k < w - 1
        ensures Bit(x / 2, k) == Bit(y / 2, k)
      {
        assert Bit(x, k + 1) == Bit(y, k + 1);
      }
      BitsDetermine(w - 1, x / 2, y / 2);
    }
  }

  lemma {:induction false} OrBelow(w: nat, x: nat, y: nat)
    requires x < Pow2(w) && y < Pow2(w)
    ensures Or(x, y) < Pow2(w)
    decreases w
  {
    if x != 0 && y != 0 { OrBelow(w - 1, x / 2, y / 2); }
  }

  lemma {:induction false} AndAtMost(x: nat, y: nat)
    ensures And(x, y) <= x && And(x, y) <= y
    decreases x
  {
    if x != 0 && y != 0 { AndAtMost(x / 2, y / 2); }
  }

  lemma {:induction false} Pow2Monotone(j: nat, k: nat)
    requires j < k
    ensures 2 * Pow2(j) <= Pow2(k)
    decreases k
  {
    if j < k - 1 { Pow2Monotone(j, k - 1); }
  }

  /** Masking with 2^k - 1 keeps the low k bits. */
  lemma {:induction false} AndMask(x: nat, k: nat)
    ensures And(x, Pow2(k) - 1) == x % Pow2(k)
    decreases k
  {
    if k > 0 && x != 0 {
      var p := Pow2(k - 1);
      AndMask(x / 2, k - 1);
      HalveMod(x, p);
      AndOdd(x, p - 1);
      assert Pow2(k) - 1 == 2 * (p - 1) + 1;
    } else if x == 0 {
      ModUnique(0, Pow2(k), 0, 0);
    }
  }

  lemma AndOdd(x: nat, m: nat)
    ensures And(x, 2 * m + 1) == 2 * And(x / 2, m) + x % 2
  {
    assert (2 * m + 1) / 2 == m && (2 * m + 1) % 2 == 1;
  }

  lemma HalveMod(x: nat, m: nat)
    requires m > 0
    ensures x % (2 * m) == 2 * ((x / 2) % m) + x % 2
  {
    var q, r := (x / 2) / m, (x / 2) % m;
    assert x == (2 * m) * q + (2 * r + x % 2) by {
      assert x / 2 == m * q + r;
    }
    ModUnique(x, 2 * m, q, 2 * r + x % 2);
  }

  /** 32-bit wrap-around. */
  function Wrap32(n: int): (r: nat)
    ensures r < 0x1_0000_0000 && (0 <= n < 0x1_0000_0000 ==> r == n)
  {
    n % 0x1_0000_0000
  }

  lemma Wrap32Add(a: int, b: int)
    ensures Wrap32(Wrap32(a) + b) == Wrap32(a + b)
  {
  }

  lemma ModUnique(x: int, m: nat, q: int, r: nat)
    requires m > 0 && r < m && x == m * q + r
    ensures x % m == r && x / m == q
  {
    var d := x / m - q;
    assert m * d == r - x % m by {
      assert x == m * (x / m) + x % m;
      assert m * d == m * (x / m) - m * q;
    }
    MulSign(m, d);
  }

  lemma MulSign(m: nat, d: int)
    ensures d >= 1 ==> m * d >= m
    ensures d <= -1 ==> m * d <= -(m as int)
  {
  }

  lemma Pow2OfWord()
    ensures Pow2(32) == WORD && Pow2(8) == 256 && Pow2(12) == 4096
  {
    assert Pow2(8) == 256;
    assert Pow2(16) == 65536 by { assert Pow2(12) == 4096; }
    assert Pow2(24) == 0x100_0000 by { assert Pow2(20) == 0x10_0000; }
    assert Pow2(32) == WORD by { assert Pow2(28) == 0x1000_0000; }
  }

  // ---------------------------------------------------------------- ALIGN

  /** ALIGN(value, align), with the negation taken in a 32-bit word. */
  function Align(v: nat, a: nat): nat
    requires a >= 1
  {
    v + And(Negated(v), a - 1)
  }

  /** -(value) as a 32-bit word. */
  function Negated(v: nat): nat {
    (WORD - v % WORD) % WORD
  }

  /** Whatever the alignment, rounding moves up by less than it. */
  lemma AlignBounds(v: nat, a: nat)
    requires a >= 1
    ensures v <= Align(v, a) < v + a
  {
    AndAtMost(Negated(v), a - 1);
  }

  /** For a power of two the result is the least multiple not below v. */
  lemma AlignIsCeiling(v: nat, k: nat)
    requires k <= 32
    ensures Align(v, Pow2(k)) % Pow2(k) == 0
    ensures forall m: nat | v <= m && m % Pow2(k) == 0 :: Align(v, Pow2(k)) <= m
  {
    var a := Pow2(k);
    AlignIsMultiple(v, k);
    AlignBounds(v, a);
    forall m: nat | v <= m && m % a == 0
      ensures Align(v, a) <= m
    {
      NoMultipleBetween(a, Align(v, a), m);
    }
  }

  lemma AlignIsMultiple(v: nat, k: nat)
    requires k <= 32
    ensures Align(v, Pow2(k)) % Pow2(k) == 0
  {
    AndMask(Negated(v), k);
    var b := NegationCompletes(v);
    PowerDividesWord(k);
    CompleteMultiple(v, Negated(v), Pow2(k), WORD / Pow2(k), b);
  }

  lemma PowerDividesWord(k: nat)
    requires k <= 32
    ensures WORD == Pow2(k) * (WORD / Pow2(k))
  {
    Pow2OfWord();
    PowersDivide(k, 32);
  }

  lemma NegationCompletes(v: nat) returns (b: nat)
    ensures v + Negated(v) == WORD * b
  {
    b := if v % WORD == 0 then v / WORD else v / WORD + 1;
  }

  lemma CompleteMultiple(v: nat, n: nat, a: nat, c: nat, b: nat)
    requires a > 0 && v + n == (a * c) * b
    ensures (v + n % a) % a == 0
  {
    var d := n / a;
    assert v + n % a == a * (c * b - d) by {
      assert n == a * d + n % a;
      assert (a * c) * b == a * (c * b);
    }
    ModUnique(v + n % a, a, c * b - d, 0);
  }

  lemma NoMultipleBetween(a: nat, n: nat, m: nat)
    requires a > 0 && n % a == 0 && m % a == 0 && n < m + a
    ensures n <= m
  {
    assert m - n == a * (m / a - n / a);
    MulSign(a, m / a - n / a);
  }

  lemma {:induction false} PowersDivide(j: nat, k: nat)
    requires j <= k
    ensures Pow2(k) == Pow2(j) * (Pow2(k) / Pow2(j))
    decreases k
  {
    if j < k {
      PowersDivide(j, k - 1);
      var c := Pow2(k - 1) / Pow2(j);
      assert Pow2(k) == Pow2(j) * (2 * c);
      ModUnique(Pow2(k), Pow2(j), 2 * c, 0);
    } else {
      ModUnique(Pow2(k), Pow2(j), 1, 0);
    }
  }
}
