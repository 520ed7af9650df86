/**
  Numbers as text: the digit loop of _ntoa_long in kernel/src/lib/sprintf.c,
  and atoi and htoi of kernel/src/lib/string.c, which read numbers back.

  A C string is a sequence read up to its end or its first NUL.
 */
module NumberText {
  import Bits

  /** s[i], where the terminator stands behind the last character. */
  function At(s: string, i: nat): char {
    if i < |s| then s[i] else '\0'
  }

  predicate IsDigit(c: char) {
    '0' <= c <= '9'
  }

  // ------------------------------------------------------- writing

  /** One digit, as _ntoa_long writes it. */
  function DigitChar(d: nat, upper: bool): char
    requires d < 16
  {
    if d < 10 then ('0' as int + d) as char
    else ((if upper then 'A' else 'a') as int + d - 10) as char
  }

  /** The bases of the printer. Dividing by one of them is dividing by a constant. */
  predicate IsBase(b: nat) {
    b == 2 || b == 8 || b == 10 || b == 16
  }

  function Quot(v: nat, base: nat): nat {
    if base == 10 then v / 10 else if base == 16 then v / 16 else if base == 8 then v / 8 else v / 2
  }

  function Rem(v: nat, base: nat): (d: nat)
    ensures d < 16
  {
    if base == 10 then v % 10 else if base == 16 then v % 16 else if base == 8 then v % 8 else v % 2
  }

  lemma QuotRem(v: nat, base: nat)
    requires IsBase(base)
    ensures v == base * Quot(v, base) + Rem(v, base) && Rem(v, base) < base
  {
  }

  /** The digits of v, least significant first, cut off after `room` of them. */
  function Digits(v: nat, base: nat, upper: bool, room: nat): (s: string)
    requires room >= 1
    ensures 1 <= |s| <= room
    decreases room, v
  {
    [DigitChar(Rem(v, base), upper)]
    + if Quot(v, base) != 0 && room > 1 then Digits(Quot(v, base), base, upper, room - 1) else []
  }

  function Power(b: nat, n: nat): (p: nat)
    ensures b > 0 ==> p > 0
  {
    if n == 0 then 1 else b * Power(b, n - 1)
  }

  /** The value of a digit character in any base up to 16. */
  function DigitValue(c: char): nat {
    if '0' <= c <= '9' then c as int - '0' as int
    else if 'A' <= c <= 'F' then c as int - 'A' as int + 10
    else if 'a' <= c <= 'f' then c as int - 'a' as int + 10
    else 0
  }

  /** The value of digits written least significant first. */
  function LowFirstValue(s: string, base: nat): nat {
    if s == [] then 0 else DigitValue(s[0]) + base * LowFirstValue(s[1..], base)
  }

  lemma DigitRoundTrip(d: nat, upper: bool)
    requires d < 16
    ensures DigitValue(DigitChar(d, upper)) == d
    ensures IsDigit(DigitChar(d, upper)) <==> d < 10
    ensures DigitChar(d, upper) == '0' <==> d == 0
  {
  }

  /**
    The digit loop computes the value modulo base^room: exact while the
    buffer is long enough, and the low digits otherwise.
   */
  lemma {:induction false} DigitsValue(v: nat, base: nat, upper: bool, room: nat)
    requires IsBase(base) && room >= 1
    ensures LowFirstValue(Digits(v, base, upper, room), base) == v % Power(base, room)
    decreases room
  {
    var a, d, p := Quot(v, base), Rem(v, base), Power(base, room - 1);
    var rest := if a != 0 && room > 1 then Digits(a, base, upper, room - 1) else [];
    if a != 0 && room > 1 {
      DigitsValue(a, base, upper, room - 1);
    } else {
      TopIsZero(a, p);
    }
    assert LowFirstValue(rest, base) == a % p;
    DigitRoundTrip(d, upper);
    LowFirstCons(DigitChar(d, upper), rest, base);
    QuotRem(v, base);
    DivRem(a, p);
    SplitModAux(v, base, p, a, d, a / p, a % p);
  }

  lemma DivRem(a: nat, p: nat)
    requires p > 0
    ensures a / p >= 0 && a == p * (a / p) + a % p && a % p < p
  {
  }

  lemma LowFirstCons(c: char, rest: string, base: nat)
    ensures LowFirstValue([c] + rest, base) == DigitValue(c) + base * LowFirstValue(rest, base)
  {
    assert ([c] + rest)[1..] == rest;
  }

  lemma TopIsZero(a: nat, p: nat)
    requires p > 0 && (a == 0 || p == 1)
    ensures a % p == 0
  {
  }

  lemma SplitModAux(v: nat, b: nat, p: nat, a: nat, d: nat, q: nat, r: nat)
    requires b > 0 && v == b * a + d && d < b
    requires p > 0 && a == p * q + r && r < p
    ensures b * p > 0 && v % (b * p) == d + b * r
  {
    Regroup(b, p, q, r);
    DigitBelow(b, p, r, d);
    Bits.ModUnique(v, b * p, q, d + b * r);
  }

  lemma Regroup(b: nat, p: nat, q: nat, r: nat)
    ensures b * (p * q + r) == (b * p) * q + b * r
  {
    assert b * (p * q) == (b * p) * q;
  }

  lemma DigitBelow(b: nat, p: nat, r: nat, d: nat)
    requires r < p && d < b
    ensures d + b * r < b * p
  {
    assert b * r <= b * (p - 1);
    assert b * (p - 1) == b * p - b;
  }

  lemma {:induction false} PowerMonotone(b: nat, m: nat, n: nat)
    requires b >= 1 && m <= n
    ensures Power(b, m) <= Power(b, n)
    decreases n
  {
    if m < n {
      PowerMonotone(b, m, n - 1);
      assert Power(b, n) == b * Power(b, n - 1);
    }
  }

  /** Untruncated digits have no leading zero, except for zero itself. */
  lemma {:induction false} NoLeadingZero(v: nat, base: nat, upper: bool, room: nat)
    requires IsBase(base) && room >= 1 && 0 < v < Power(base, room)
    ensures var s := Digits(v, base, upper, room); s[|s| - 1] != '0'
    decreases room
  {
    var a, d, p := Quot(v, base), Rem(v, base), Power(base, room - 1);
    QuotRem(v, base);
    DigitRoundTrip(d, upper);
    assert Power(base, room) == base * p;
    if a != 0 {
      BelowProduct(a, p, base);
      assert room > 1;
      NoLeadingZero(a, base, upper, room - 1);
    }
  }

  lemma BelowProduct(a: nat, p: nat, b: nat)
    requires b * a < b * p
    ensures a < p
  {
    assert a >= p ==> b * a >= b * p;
  }

  /** A value below base^n has at most n digits. */
  lemma {:induction false} DigitsFit(v: nat, base: nat, upper: bool, room: nat, n: nat)
    requires IsBase(base) && room >= 1 && n >= 1 && v < Power(base, n)
    ensures |Digits(v, base, upper, room)| <= n
    decreases room
  {
    var a := Quot(v, base);
    QuotRem(v, base);
    assert Power(base, n) == base * Power(base, n - 1);
    if a != 0 && room > 1 {
      BelowProduct(a, Power(base, n - 1), base);
      assert n > 1;
      DigitsFit(a, base, upper, room - 1, n - 1);
    }
  }

  function Reversed(s: string): (r: string)
    ensures |r| == |s|
  {
    if s == [] then [] else Reversed(s[1..]) + [s[0]]
  }

  lemma {:induction false} ReversedAt(s: string, k: nat)
    requires k < |s|
    ensures Reversed(s)[k] == s[|s| - 1 - k]
    decreases |s|
  {
    if k < |s| - 1 { ReversedAt(s[1..], k); }
  }

  // ------------------------------------------------------- reading

  /** The value of the digits of s from i on, appended to acc. */
  function ReadDecimal(s: string, i: nat, acc: nat): nat
    decreases |s| - i
  {
    if IsDigit(At(s, i)) then ReadDecimal(s, i + 1, acc * 10 + DigitValue(s[i])) else acc
  }

  /** A 32-bit two's complement int. */
  function Int32(v: int): (r: int)
    ensures -0x8000_0000 <= r < 0x8000_0000
    ensures (r - v) % 0x1_0000_0000 == 0
  {
    (v + 0x8000_0000) % 0x1_0000_0000 - 0x8000_0000
  }

  /** atoi, with int arithmetic in two's complement. */
  method Atoi(s: string) returns (n: int)
    ensures n == AtoiValue(s)
  {
    var i := 0;
    n := 0;
    var minus := At(s, 0) == '-';
    if minus {
      i := 1;
    }
    ghost var from, acc: nat := i, 0;
    while '0' <= At(s, i) <= '9'
      invariant ReadDecimal(s, i, acc) == ReadDecimal(s, from, 0)
      invariant n == Int32(acc)
      decreases |s| - i
    {
      WrapStep(n, acc, DigitValue(s[i]));
      acc := acc * 10 + DigitValue(s[i]);
      n := Int32(n * 10 + (s[i] as int - '0' as int));
      i := i + 1;
    }
    WrapNegate(n, acc);
    n := Int32(n * if minus then -1 else 1);
  }

  /** The number a string denotes to atoi, wrapped to an int. */
  function AtoiValue(s: string): int {
    if At(s, 0) == '-' then Int32(-(ReadDecimal(s, 1, 0) as int)) else Int32(ReadDecimal(s, 0, 0))
  }

  lemma WrapStep(n: int, acc: nat, d: nat)
    requires n == Int32(acc)
    ensures Int32(n * 10 + d) == Int32(acc * 10 + d)
  {
    var k := (acc + 0x8000_0000) / 0x1_0000_0000;
    assert n == acc - 0x1_0000_0000 * k;
    WrapPeriod(acc * 10 + d, 10 * k);
  }

  lemma WrapPeriod(v: int, k: int)
    ensures Int32(v - 0x1_0000_0000 * k) == Int32(v)
  {
  }

  lemma WrapNegate(n: int, acc: nat)
    requires n == Int32(acc)
    ensures Int32(-n) == Int32(-(acc as int)) && Int32(n) == n
  {
    var k := (acc + 0x8000_0000) / 0x1_0000_0000;
    assert n == acc - 0x1_0000_0000 * k;
    WrapPeriod(-(acc as int), -k);
  }

  predicate IsHex(c: char) {
    '0' <= c <= '9' || 'A' <= c <= 'F' || 'a' <= c <= 'f'
  }

  function ReadHex(s: string, i: nat, acc: nat): nat
    decreases |s| - i
  {
    if IsHex(At(s, i)) then ReadHex(s, i + 1, acc * 16 + DigitValue(s[i])) else acc
  }

  /** htoi; size_t arithmetic is modulo 2^32. */
  method Htoi(s: string) returns (r: nat)
    ensures r == ReadHex(s, 0, 0) % 0x1_0000_0000
  {
    r := 0;
    var p := 0;
    ghost var acc: nat := 0;
    while At(s, p) != '\0'
      invariant ReadHex(s, p, acc) == ReadHex(s, 0, 0)
      invariant r == acc % 0x1_0000_0000
      decreases |s| - p
    {
      var c, d := s[p], 0;
      if '0' <= c <= '9' {
        d := c as int - '0' as int;
      } else if 'A' <= c <= 'F' {
        d := c as int - 'A' as int + 10;
      } else if 'a' <= c <= 'f' {
        d := c as int - 'a' as int + 10;
      } else {
        return;
      }
      ModStep(acc, d);
      r := (r * 16 + d) % 0x1_0000_0000;
      acc := acc * 16 + d;
      p := p + 1;
    }
  }

  lemma ModStep(acc: nat, d: nat)
    ensures ((acc % 0x1_0000_0000) * 16 + d) % 0x1_0000_0000 == (acc * 16 + d) % 0x1_0000_0000
  {
    var k := acc / 0x1_0000_0000;
    var x := (acc % 0x1_0000_0000) * 16 + d;
    assert acc * 16 + d == 0x1_0000_0000 * (16 * k) + x;
    Bits.ModUnique(acc * 16 + d, 0x1_0000_0000, 16 * k + x / 0x1_0000_0000, x % 0x1_0000_0000);
  }

  // ------------------------------------------------------- reading what was written

  predicate Within(s: string, base: nat) {
    forall k | 0 <= k < |s| :: (if base == 10 then IsDigit(s[k]) else IsHex(s[k]))
  }

  lemma {:induction false} DigitsWithin(v: nat, base: nat, upper: bool, room: nat)
    requires (base == 10 || base == 16) && room >= 1
    ensures Within(Digits(v, base, upper, room), base)
    decreases room
  {
    DigitRoundTrip(Rem(v, base), upper);
    if Quot(v, base) != 0 && room > 1 { DigitsWithin(Quot(v, base), base, upper, room - 1); }
  }

  /** Reading digits from the front undoes writing them reversed. */
  lemma {:induction false} ReadReversed(pre: string, s: string, acc: nat, base: nat)
    requires (base == 10 || base == 16) && Within(s, base)
    ensures var t := pre + Reversed(s);
            var v := acc * Power(base, |s|) + LowFirstValue(s, base);
            if base == 10 then ReadDecimal(t, |pre|, acc) == v else ReadHex(t, |pre|, acc) == v
    decreases |s|
  {
    var t := pre + Reversed(s);
    if s == [] {
      assert t == pre;
    } else {
      // The first character read is the last one written.
      var last := s[|s| - 1];
      var rest := s[..|s| - 1];
      ReversedHead(s);
      assert t == (pre + [last]) + Reversed(rest);
      assert t[|pre|] == last;
      ReadReversed(pre + [last], rest, acc * base + DigitValue(last), base);
      LowFirstSplit(s, base);
      HornerStep(acc, base, DigitValue(last), Power(base, |rest|));
    }
  }

  lemma {:induction false} ReversedHead(s: string)
    requires s != []
    ensures Reversed(s) == [s[|s| - 1]] + Reversed(s[..|s| - 1])
    decreases |s|
  {
    if |s| > 1 {
      ReversedHead(s[1..]);
      assert s[1..][..|s| - 2] == s[..|s| - 1][1..];
    } else {
      assert s[1..] == [];
    }
  }

  lemma {:induction false} LowFirstSplit(s: string, base: nat)
    requires s != []
    ensures LowFirstValue(s, base)
            == LowFirstValue(s[..|s| - 1], base) + DigitValue(s[|s| - 1]) * Power(base, |s| - 1)
    decreases |s|
  {
    if |s| > 1 {
      LowFirstSplit(s[1..], base);
      var mid, last := s[1..|s| - 1], DigitValue(s[|s| - 1]);
      assert s[1..][..|s| - 2] == mid && s[..|s| - 1][1..] == mid;
      Distribute(base, LowFirstValue(mid, base), last, Power(base, |s| - 2));
    } else {
      assert s[1..] == [] && s[..0] == [];
    }
  }

  lemma Distribute(b: nat, x: nat, d: nat, p: nat)
    ensures b * (x + d * p) == b * x + d * (b * p)
  {
    assert b * (d * p) == d * (b * p);
  }

  lemma HornerStep(acc: nat, base: nat, d: nat, p: nat)
    ensures (acc * base + d) * p == acc * (base * p) + d * p
  {
    assert (acc * base) * p == acc * (base * p);
  }

  /** Decimal digits of an unsigned 64-bit value read back as the value. */
  lemma DecimalRoundTrip(pre: string, v: nat, upper: bool)
    requires v < 0x1_0000_0000_0000_0000
    ensures ReadDecimal(pre + Reversed(Digits(v, 10, upper, 32)), |pre|, 0) == v
  {
    DigitsWithin(v, 10, upper, 32);
    ReadReversed(pre, Digits(v, 10, upper, 32), 0, 10);
    DigitsValue(v, 10, upper, 32);
    RoomSuffices(10);
    SmallMod(v, Power(10, 32));
  }

  lemma HexRoundTrip(v: nat, upper: bool)
    requires v < 0x1_0000_0000_0000_0000
    ensures ReadHex(Reversed(Digits(v, 16, upper, 32)), 0, 0) == v
  {
    var s := Digits(v, 16, upper, 32);
    DigitsWithin(v, 16, upper, 32);
    ReadReversed([], s, 0, 16);
    assert [] + Reversed(s) == Reversed(s);
    DigitsValue(v, 16, upper, 32);
    RoomSuffices(16);
    SmallMod(v, Power(16, 32));
  }

  lemma SmallMod(v: nat, m: nat)
    requires v < m
    ensures v % m == v
  {
  }

  /** 32 digits are enough for 64 bits in every base the printer uses but 2. */
  lemma RoomSuffices(base: nat)
    requires base >= 8
    ensures Power(base, 32) >= 0x1_0000_0000_0000_0000
  {
    BasePower(base, 32);
    EightToThe22();
    PowerMonotone(8, 22, 32);
  }

  lemma EightToThe22()
    ensures Power(8, 22) == 0x4_0000_0000_0000_0000
  {
    assert Power(8, 8) == 0x100_0000 by { assert Power(8, 4) == 4096; }
    assert Power(8, 16) == 0x1_0000_0000_0000 by { assert Power(8, 12) == 0x10_0000_0000; }
    assert Power(8, 22) == 0x4_0000_0000_0000_0000 by { assert Power(8, 19) == 0x200_0000_0000_0000; }
  }

  lemma TwoToThe32()
    ensures Power(2, 32) == 0x1_0000_0000
  {
    assert Power(2, 8) == 256;
    assert Power(2, 16) == 65536 by { assert Power(2, 12) == 4096; }
    assert Power(2, 24) == 0x100_0000 by { assert Power(2, 20) == 0x10_0000; }
    assert Power(2, 32) == 0x1_0000_0000 by { assert Power(2, 28) == 0x1000_0000; }
  }

  lemma {:induction false} BasePower(base: nat, n: nat)
    requires base >= 8
    ensures Power(8, n) <= Power(base, n)
    decreases n
  {
    if n > 0 {
      BasePower(base, n - 1);
      MulMonotone(8, base, Power(8, n - 1), Power(base, n - 1));
    }
  }

  lemma MulMonotone(a: nat, b: nat, c: nat, d: nat)
    requires a <= b && c <= d
    ensures a * c <= b * d
  {
  }
}
