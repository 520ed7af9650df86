/**
  The shift-and-subtract division of kernel/src/lib/intrin.c, in 64-bit
  arithmetic.
 */
module Division {
  import opened Bits

  datatype Outcome = DivideFault | Done(quot: nat, rem: nat)

  /** 64-bit wrap-around. */
  function Wrap(n: nat): nat { n % 0x1_0000_0000_0000_0000 }

  predicate Fits(n: int) { 0 <= n < 0x1_0000_0000_0000_0000 }

  lemma {:induction false} ShiftLeavesRoom(d: nat, k: nat)
    requires 0 < d && Fits(d * Pow2(k))
    ensures Fits(Pow2(k)) && Fits(d)
  {
    var p := Pow2(k);
    assert d * p >= p by { assert (d - 1) * p >= 0; }
    assert d * p >= d by { assert d * (p - 1) >= 0; }
  }

  lemma Doubled(d: nat, p: nat)
    ensures d * (2 * p) == 2 * (d * p)
  {
  }

  /** Moves the denominator up until its top bit is set: the shift loses nothing and always ends. */
  method Justify(den: nat) returns (shifted: nat, qbit: nat, ghost k: nat)
    requires 0 < den && Fits(den)
    ensures qbit == Pow2(k) && shifted == den * qbit && 0x8000_0000_0000_0000 <= shifted && Fits(shifted)
  {
    shifted, qbit, k := den, 1, 0;
    while shifted < 0x8000_0000_0000_0000
      invariant qbit == Pow2(k) && shifted == den * qbit && 0 < shifted && Fits(shifted)
      decreases 0x8000_0000_0000_0000 - shifted
    {
      ShiftLeavesRoom(den, k);
      Doubled(den, qbit);
      assert shifted * 2 == den * Pow2(k + 1);
      ShiftLeavesRoom(den, k + 1);
      shifted, qbit, k := Wrap(shifted * 2), Wrap(qbit * 2), k + 1;
    }
  }

  /** Between the steps of the second loop; den is the original denominator. */
  ghost predicate Between(num0: nat, den: nat, num: nat, shifted: nat, quot: nat, qbit: nat, k: nat) {
    && num0 == quot * den + num
    && qbit == Pow2(k) && shifted == den * qbit && num < 2 * shifted
  }

  /** One step: subtract if it goes. */
  method Subtract(num0: nat, den: nat, num: nat, shifted: nat, quot: nat, qbit: nat, ghost k: nat)
    returns (num': nat, quot': nat)
    requires 0 < den && Fits(num0) && Between(num0, den, num, shifted, quot, qbit, k)
    ensures num0 == quot' * den + num' && num' < shifted
  {
    num', quot' := num, quot;
    if shifted <= num {
      num' := num - shifted;
      assert (quot + qbit) * den == quot * den + shifted;
      QuotientFits(num0, quot + qbit, den, num');
      quot' := Wrap(quot + qbit);
    }
  }

  lemma QuotientFits(num: nat, q: nat, den: nat, rest: nat)
    requires Fits(num) && 0 < den && num == q * den + rest
    ensures Fits(q)
  {
    assert q * (den - 1) >= 0;
  }

  lemma Uniquely(num: nat, den: nat, q: nat, r: nat)
    requires 0 < den && num == q * den + r && r < den
    ensures q == num / den && r == num % den
  {
    assert num == den * q + r;
    ModUnique(num, den, q, r);
  }

  /** Halving the shifted denominator and its bit, or shifting the last bit out. */
  lemma Halved(den: nat, num: nat, shifted: nat, qbit: nat, k: nat)
    requires qbit == Pow2(k) && shifted == den * qbit && num < shifted
    ensures if k == 0 then qbit / 2 == 0 && num < den
            else qbit / 2 == Pow2(k - 1) && shifted / 2 == den * Pow2(k - 1) && num < 2 * (shifted / 2)
  {
    if k > 0 { Doubled(den, Pow2(k - 1)); }
  }

  /** __udivmoddi4 */
  method UDivMod(num0: nat, den: nat) returns (r: Outcome)
    requires Fits(num0) && Fits(den)
    ensures r == if den == 0 then DivideFault else Done(num0 / den, num0 % den)
  {
    if den == 0 {
      return DivideFault;
    }
    var num: nat, quot: nat := num0, 0;
    var shifted: nat, qbit: nat;
    ghost var k: nat;
    shifted, qbit, k := Justify(den);
    while qbit != 0
      invariant if qbit == 0 then num < den && num0 == quot * den + num
                else Between(num0, den, num, shifted, quot, qbit, k)
      decreases qbit
    {
      num, quot := Subtract(num0, den, num, shifted, quot, qbit, k);
      Halved(den, num, shifted, qbit, k);
      shifted, qbit := shifted / 2, qbit / 2;
      k := if k > 0 then k - 1 else 0;
    }
    Uniquely(num0, den, quot, num);
    r := Done(quot, num);
  }
}
