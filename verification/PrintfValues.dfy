/**
  The numbers that the integer specifiers of kernel/src/lib/sprintf.c print
  for each length field, read in their own base, and the read-back theorem of
  "%d" stated for directives as they are written.
 */
module PrintfValues {
  import opened NumberText
  import opened PrintfText
  import opened PrintfLaws
  import opened PrintfCompose
  import opened PrintfSyntax
  import opened PrintfReadBack

  /** The value of digits in a base, most significant first. */
  function TextValue(s: string, base: nat): nat {
    if s == [] then 0 else base * TextValue(s[..|s| - 1], base) + DigitValue(s[|s| - 1])
  }

  lemma {:induction false} ReversedValue(s: string, base: nat)
    ensures TextValue(Reversed(s), base) == LowFirstValue(s, base)
    decreases |s|
  {
    if s != [] {
      ReversedValue(s[1..], base);
      assert Reversed(s)[..|s| - 1] == Reversed(s[1..]);
    }
  }

  predicate Plain(f: Flags) {
    !f.zeropad && !f.left && !f.plus && !f.space && !f.hash && !f.precise
  }

  /** Without flags, width and precision the buffer only gets its sign. */
  lemma PlainNtoa(digits: string, negative: bool, base: nat, f: Flags)
    requires |digits| < (if negative then 32 else 33) && Plain(f)
    ensures NtoaText(digits, negative, base, 0, 0, f) == (if negative then "-" else "") + Reversed(digits)
  {
    assert digits + Repeat('0', 0) == digits;
    assert WithHash(WithZeros(digits, 0, 0, f), base, 0, 0, f) == digits;
    var signed := WithSign(digits, negative, f);
    assert Repeat(' ', 0) + Reversed(signed) == Reversed(signed);
    if negative { ReversedAppend(digits, '-'); }
  }

  lemma PlainInteger(c: char, d: Directive, v: int, m: nat, negative: bool, digits: string)
    requires IsIntSpec(c) && Plain(d.flags) && !d.flags.upper && d.width == 0 && d.prec == 0
    requires (m, negative) == IntValue(c, d.flags, v)
    requires digits == Digits(m, BaseOf(c), c == 'X', 32) && |digits| < (if negative then 32 else 33)
    ensures IntText(c, d, v) == (if negative then "-" else "") + Reversed(digits)
  {
    var f := IntFlags(d.flags, c);
    assert Plain(f) && f.upper == (c == 'X') && IntBits(f) == IntBits(d.flags);
    assert f.(hash := false) == f;
    PlainNtoa(digits, negative, BaseOf(c), f);
  }

  /** How many values an integer of that many bits has. */
  function Values(bits: nat): nat {
    if bits == 8 then 0x100 else if bits == 16 then 0x1_0000
    else if bits == 32 then 0x1_0000_0000 else 0x1_0000_0000_0000_0000
  }

  /** The difference is a multiple of that many values. */
  predicate Congruent(v: int, n: int, bits: nat) {
    if bits == 8 then (v - n) % 0x100 == 0
    else if bits == 16 then (v - n) % 0x1_0000 == 0
    else if bits == 32 then (v - n) % 0x1_0000_0000 == 0
    else (v - n) % 0x1_0000_0000_0000_0000 == 0
  }

  lemma Remainder8(v: int)
    ensures (v - v % 0x100) % 0x100 == 0
  {
  }

  lemma Remainder16(v: int)
    ensures (v - v % 0x1_0000) % 0x1_0000 == 0
  {
  }

  lemma Remainder32(v: int)
    ensures (v - v % 0x1_0000_0000) % 0x1_0000_0000 == 0
  {
  }

  lemma Remainder64(v: int)
    ensures (v - v % 0x1_0000_0000_0000_0000) % 0x1_0000_0000_0000_0000 == 0
  {
  }

  lemma UnsignedRange(v: int, bits: nat)
    requires bits in {8, 16, 32, 64}
    ensures Unsigned(v, bits) < Values(bits) && Congruent(v, Unsigned(v, bits), bits)
  {
    Remainder8(v);
    Remainder16(v);
    Remainder32(v);
    Remainder64(v);
  }

  /** The low 32 of 64 bits. */
  lemma LowHalf(v: int, m: int)
    requires Congruent(v, m, 64)
    ensures Congruent(v, m % 0x1_0000_0000, 32)
  {
    var q, r := (v - m) / 0x1_0000_0000_0000_0000, m / 0x1_0000_0000;
    assert v - m == 0x1_0000_0000 * (0x1_0000_0000 * q);
    assert v - m % 0x1_0000_0000 == 0x1_0000_0000 * (0x1_0000_0000 * q + r);
  }

  lemma SignedRange(v: int, bits: nat)
    requires bits in {8, 16, 32, 64}
    ensures 0 - Values(bits) <= 2 * Signed(v, bits) < Values(bits) && Congruent(v, Signed(v, bits), bits)
  {
    UnsignedRange(v, bits);
    var u, n := Unsigned(v, bits), Signed(v, bits);
    if n != u { OneSpanAway(v, u, bits); }
  }

  lemma Next8(x: int)
    requires x % 0x100 == 0
    ensures (x + 0x100) % 0x100 == 0
  {
  }

  lemma Next16(x: int)
    requires x % 0x1_0000 == 0
    ensures (x + 0x1_0000) % 0x1_0000 == 0
  {
  }

  lemma Next32(x: int)
    requires x % 0x1_0000_0000 == 0
    ensures (x + 0x1_0000_0000) % 0x1_0000_0000 == 0
  {
  }

  lemma Next64(x: int)
    requires x % 0x1_0000_0000_0000_0000 == 0
    ensures (x + 0x1_0000_0000_0000_0000) % 0x1_0000_0000_0000_0000 == 0
  {
  }

  lemma OneSpanAway(v: int, u: int, bits: nat)
    requires bits in {8, 16, 32, 64} && Congruent(v, u, bits)
    ensures Congruent(v, u - Values(bits), bits)
  {
    var x := v - u;
    assert v - (u - Values(bits)) == x + Values(bits);
    if bits == 8 {
      Next8(x);
    } else if bits == 16 {
      Next16(x);
    } else if bits == 32 {
      Next32(x);
    } else {
      Next64(x);
    }
  }

  /** A directive with at most a length field. */
  function Sized(length: string): Written { Written("", "", "", length) }

  lemma SizedIsPlain(w: Written, d: Directive, x: seq<Arg>)
    requires w == Sized(w.length) && Means(d, w, x)
    ensures Plain(d.flags) && !d.flags.upper && d.width == 0 && d.prec == 0
    ensures d.args == 0 && IntBits(d.flags) == w.Bits()
  {
  }

  predicate DigitOf(c: char, upper: bool) {
    '0' <= c <= '9' || (if upper then 'A' <= c <= 'F' else 'a' <= c <= 'f')
  }

  lemma {:induction false} DigitCase(v: nat, base: nat, upper: bool, room: nat)
    requires room >= 1
    ensures forall k | 0 <= k < |Digits(v, base, upper, room)| :: DigitOf(Digits(v, base, upper, room)[k], upper)
    decreases room
  {
    if Quot(v, base) != 0 && room > 1 { DigitCase(Quot(v, base), base, upper, room - 1); }
  }

  /** 32 digits are exact, but for base 2, where the buffer keeps the low 32 bits. */
  lemma DigitsExact(m: nat, base: nat, upper: bool)
    requires IsBase(base) && m < 0x1_0000_0000_0000_0000
    ensures LowFirstValue(Digits(m, base, upper, 32), base) == if base == 2 then m % 0x1_0000_0000 else m
  {
    DigitsValue(m, base, upper, 32);
    if base == 2 {
      TwoToThe32();
    } else {
      FitsIn32(m, base);
      SmallMod(m, Power(base, 32));
    }
  }

  lemma UnsignedText(c: char, d: Directive, v: int, s: string, m: nat)
    requires c in {'u', 'x', 'X', 'o', 'b'} && s == IntText(c, d, v) && m == Unsigned(v, IntBits(d.flags))
    requires Plain(d.flags) && !d.flags.upper && d.width == 0 && d.prec == 0 && m < 0x1_0000_0000_0000_0000
    ensures TextValue(s, BaseOf(c)) == if c == 'b' then m % 0x1_0000_0000 else m
    ensures forall k | 0 <= k < |s| :: DigitOf(s[k], c == 'X')
  {
    var digits := Digits(m, BaseOf(c), c == 'X', 32);
    PlainInteger(c, d, v, m, false, digits);
    assert "" + Reversed(digits) == Reversed(digits);
    ReversedValue(digits, BaseOf(c));
    DigitsExact(m, BaseOf(c), c == 'X');
    DigitCase(m, BaseOf(c), c == 'X', 32);
    forall k | 0 <= k < |s|
      ensures DigitOf(s[k], c == 'X')
    {
      ReversedAt(digits, k);
    }
  }

  lemma UnsignedValue(v: int, bits: nat, m: nat, c: char, n: nat)
    requires bits in {8, 16, 32, 64} && m == Unsigned(v, bits) && n == if c == 'b' then m % 0x1_0000_0000 else m
    ensures var shown := if c == 'b' && bits == 64 then 32 else bits; n < Values(shown) && Congruent(v, n, shown)
  {
    UnsignedRange(v, bits);
    if bits == 64 { LowHalf(v, m); }
  }

  /**
    u, x, X, o and b with any length field print the number of that width
    congruent to the argument, in base 10, 16, 16, 8 and 2; b shows 32 bits of 64.
   */
  lemma UnsignedReadsBack(length: string, c: char, v: int, floats: FloatText)
    requires Sized(length).Legal() && c in {'u', 'x', 'X', 'o', 'b'}
    ensures var s, bits := Format(Sized(length).Text(c), [IntArg(v)], floats), Sized(length).Bits();
            var n := TextValue(s, if c == 'u' then 10 else if c == 'o' then 8 else if c == 'b' then 2 else 16);
            var shown := if c == 'b' && bits == 64 then 32 else bits;
            && n < Values(shown) && Congruent(v, n, shown)
            && forall k | 0 <= k < |s| :: DigitOf(s[k], c == 'X')
  {
    var w, s := Sized(length), Format(Sized(length).Text(c), [IntArg(v)], floats);
    var d := PrintedAlone(w, c, [IntArg(v)], floats);
    SizedIsPlain(w, d, [IntArg(v)]);
    var m := Unsigned(v, w.Bits());
    UnsignedRange(v, w.Bits());
    UnsignedText(c, d, v, s, m);
    UnsignedValue(v, w.Bits(), m, c, TextValue(s, BaseOf(c)));
  }

  /** A directive by itself. */
  lemma PrintedAlone(w: Written, c: char, x: seq<Arg>, floats: FloatText) returns (d: Directive)
    requires w.Legal() && IsIntSpec(c) && |x| == w.Stars() + 1
    ensures Means(d, w, x) && Format(w.Text(c), x, floats) == IntText(c, d, IntAt(x, w.Stars()))
  {
    d := DirectiveThenRest(w, c, x, [], [], floats);
    assert w.Text(c) + [] == w.Text(c) && x + [] == x;
    assert Format([], [], floats) == [];
  }

  /** The number that a text with an optional minus sign shows. */
  function ShownNumber(s: string): int {
    if s != [] && s[0] == '-' then 0 - TextValue(s[1..], 10) else TextValue(s, 10)
  }

  lemma SignedShows(m: nat, negative: bool, s: string)
    requires m < 0x1_0000_0000_0000_0000
    requires s == (if negative then "-" else "") + Reversed(Digits(m, 10, false, 32))
    ensures ShownNumber(s) == if negative then 0 - m else m
  {
    var digits := Digits(m, 10, false, 32);
    ReversedValue(digits, 10);
    DigitsExact(m, 10, false);
    if negative {
      assert s[1..] == Reversed(digits);
    } else {
      assert s == Reversed(digits);
      FirstIsDigit(m);
    }
  }

  lemma SignedInteger(c: char, d: Directive, v: int, n: int)
    requires c in {'d', 'i'} && n == Signed(v, IntBits(d.flags))
    requires 0 - 0x8000_0000_0000_0000 <= n < 0x8000_0000_0000_0000
    requires Plain(d.flags) && !d.flags.upper && d.width == 0 && d.prec == 0
    ensures ShownNumber(IntText(c, d, v)) == n
  {
    var m := if n < 0 then 0 - n else n;
    FewDigits(m, 10, false);
    PlainInteger(c, d, v, m, n < 0, Digits(m, 10, false, 32));
    SignedShows(m, n < 0, IntText(c, d, v));
  }

  /** d and i with any length field print the number of that width congruent to the argument. */
  lemma SignedReadsBack(length: string, c: char, v: int, floats: FloatText)
    requires Sized(length).Legal() && c in {'d', 'i'}
    ensures var n, bits := ShownNumber(Format(Sized(length).Text(c), [IntArg(v)], floats)), Sized(length).Bits();
            Congruent(v, n, bits) && 0 - Values(bits) <= 2 * n < Values(bits)
  {
    var w := Sized(length);
    var d := PrintedAlone(w, c, [IntArg(v)], floats);
    SizedIsPlain(w, d, [IntArg(v)]);
    SignedRange(v, w.Bits());
    SignedInteger(c, d, v, Signed(v, w.Bits()));
  }

  // ------------------------------------------------------- directives as they are written

  /** The sign of "%d" fits: the 32-character buffer is not filled up with zeros. */
  predicate SignHasRoom(w: Written, x: seq<Arg>) {
    || '-' in w.flags || w.Width(x) < 0
    || (w.Precision(x) < 32 && (w.precision != "" || '0' !in w.flags || w.Width(x) <= 32))
  }

  /** Which ints "%d" prints with which flags, width and precision so that atoi reads them back. */
  lemma WrittenReadsBackExactly(w: Written, x: seq<Arg>, v: int, floats: FloatText)
    requires w.Legal() && w.Bits() == 32 && |x| == w.Stars() + 1 && x[w.Stars()] == IntArg(v) && IsInt(v)
    ensures AtoiValue(Unpadded(Format(w.Text('d'), x, floats))) == v <==>
            if v < 0 then SignHasRoom(w, x) || v == -0x8000_0000
            else v == 0 || '+' !in w.flags || !SignHasRoom(w, x)
  {
    var d := PrintedAlone(w, 'd', x, floats);
    assert SignFits(d) <==> SignHasRoom(w, x);
    DecimalReadsBackExactly(v, d);
  }
}
