/**
  The '#' flag of kernel/src/lib/sprintf.c: when a hexadecimal number comes out
  as "0x" and all of its digits, and when the prefix costs digits.
 */
module PrintfPrefix {
  import opened NumberText
  import opened PrintfText
  import opened PrintfLaws
  import opened PrintfFields
  import opened PrintfReadBack
  import opened PrintfValues

  /** Without its spaces the text is 0x or 0X and the digits of v. */
  predicate ShowsPrefixed(text: string, v: nat, letter: char) {
    var s := Unpadded(text);
    |s| >= 2 && s[0] == '0' && s[1] == letter && TextValue(s[2..], 16) == v
  }

  function Letter(f: Flags): char { if f.upper then 'X' else 'x' }

  // ------------------------------------------------------- digits cut off at the top

  lemma {:induction false} TopCut(s: string, m: nat)
    requires m <= |s|
    ensures LowFirstValue(s[..m], 16) <= LowFirstValue(s, 16)
    decreases |s|
  {
    if m == |s| {
      assert s[..m] == s;
    } else {
      LowFirstSplit(s, 16);
      TopCut(s[..|s| - 1], m);
      assert s[..|s| - 1][..m] == s[..m];
    }
  }

  /** Cutting off a top digit that is not 0 makes the number smaller. */
  lemma TopDigitCounts(s: string, m: nat)
    requires m < |s| && DigitValue(s[|s| - 1]) > 0
    ensures LowFirstValue(s[..m], 16) < LowFirstValue(s, 16)
  {
    var n := |s| - 1;
    LowFirstSplit(s, 16);
    TopCut(s[..n], m);
    assert s[..n][..m] == s[..m];
    ProductPositive(DigitValue(s[n]), Power(16, n));
  }

  lemma ProductPositive(a: nat, b: nat)
    requires a > 0 && b > 0
    ensures a * b > 0
  {
  }

  lemma HexDigits(v: nat, upper: bool, digits: string)
    requires 0 < v < 0x1_0000_0000 && digits == Digits(v, 16, upper, 32)
    ensures 1 <= |digits| <= 8 && DigitValue(digits[|digits| - 1]) > 0 && LowFirstValue(digits, 16) == v
    ensures Within(digits, 16)
  {
    assert Power(16, 8) == 0x1_0000_0000 by { assert Power(16, 4) == 65536; }
    DigitsFit(v, 16, upper, 32, 8);
    TopDigit(v, 16, upper, digits);
    DigitsWithin(v, 16, upper, 32);
    DigitsExact(v, 16, upper);
    assert IsHex(digits[|digits| - 1]);
  }

  /** Digits with zeros on top, cut off at m, still show the number exactly if no digit is cut off. */
  lemma CutValue(v: nat, digits: string, zeros: nat, m: nat)
    requires digits != [] && DigitValue(digits[|digits| - 1]) > 0 && LowFirstValue(digits, 16) == v
    requires m <= |digits| + zeros
    ensures LowFirstValue((digits + Repeat('0', zeros))[..m], 16) == v <==> |digits| <= m
  {
    var b := digits + Repeat('0', zeros);
    if |digits| <= m {
      assert b[..m] == digits + Repeat('0', m - |digits|);
      ZerosAddNothing(digits, m - |digits|, 16);
    } else {
      assert b[..m] == digits[..m];
      TopDigitCounts(digits, m);
    }
  }

  // ------------------------------------------------------- the buffer with its prefix

  lemma PrefixedBuffer(b: string, letter: char, v: nat, width: nat, f: Flags)
    requires Within(b, 16) && letter in {'x', 'X'}
    ensures ShowsPrefixed(RevText(b + [letter, '0'], width, f), v, letter) <==> LowFirstValue(b, 16) == v
  {
    var h := b + [letter, '0'];
    ReversedAppend(b + [letter], '0');
    ReversedAppend(b, letter);
    assert h == b + [letter] + ['0'];
    assert Reversed(h) == ['0', letter] + Reversed(b);
    Unspaced(h, width, f);
    ReversedValue(b, 16);
    assert Reversed(h)[2..] == Reversed(b);
  }

  lemma ReversedEnds(h: string)
    requires h != []
    ensures Reversed(h) != [] && Reversed(h)[0] == h[|h| - 1] && Reversed(h)[|h| - 1] == h[0]
  {
    ReversedAt(h, 0);
    ReversedAt(h, |h| - 1);
  }

  lemma Unspaced(h: string, width: nat, f: Flags)
    requires h != [] && ' ' !in h
    ensures Unpadded(RevText(h, width, f)) == Reversed(h)
  {
    var before, behind := RevTextSpaces(h, width, f);
    ReversedEnds(h);
    assert h[0] in h && h[|h| - 1] in h;
    UnpaddedSpaces(Reversed(h), before, behind);
  }

  /** A full buffer has no room for the whole prefix. */
  lemma FullBuffer(b: string, letter: char, v: nat, width: nat, f: Flags, h: string)
    requires 31 <= |b| <= 32 && Within(b, 16) && letter in {'x', 'X'}
    requires h == if |b| == 31 then b + [letter] else b
    ensures !ShowsPrefixed(RevText(h, width, f), v, letter)
  {
    Unspaced(h, width, f);
    ReversedAt(h, 0);
    ReversedAt(h, 1);
    assert Unpadded(RevText(h, width, f)) == Reversed(h);
    if |b| == 31 { assert h[|h| - 1] == letter; }
  }

  /** What is left of the buffer when the prefix has been put on. */
  lemma HashedBuffer(b: string, prec: nat, width: nat, f: Flags)
    requires 1 <= |b| <= 32 && f.hash
    ensures var h, cut := WithHash(b, 16, prec, width, f), !f.precise && (|b| == prec || |b| == width);
            var m := if !cut then |b| else if |b| > 1 then |b| - 2 else 0;
            h == if m <= 30 then b[..m] + [Letter(f), '0'] else if |b| == 31 then b + [Letter(f)] else b
  {
  }

  /** The digits and zeros in the buffer. */
  lemma FilledBuffer(digits: string, prec: nat, width: nat, f: Flags) returns (zeros: nat)
    requires |digits| <= 8 && (f.zeropad ==> prec == 0)
    ensures WithZeros(digits, prec, width, f) == digits + Repeat('0', zeros)
    ensures |digits| + zeros
            == if f.left then |digits| else Max(|digits|, if f.zeropad then Min(width, 32) else Min(prec, 32))
  {
    var b := WithZeros(digits, prec, width, f);
    zeros := |b| - |digits|;
    if f.left {
      assert digits + Repeat('0', 0) == digits;
    } else if f.zeropad {
      assert digits + Repeat('0', 0) == digits;
    }
  }

  /** Without a sign _ntoa_format puts zeros and the prefix into the buffer. */
  lemma UnsignedNtoa(digits: string, prec: nat, width: nat, f: Flags)
    requires |digits| <= 32 && !f.plus && !f.space
    ensures NtoaText(digits, false, 16, prec, width, f)
            == RevText(WithHash(WithZeros(digits, prec, width, f), 16, prec, width, f), width, f)
  {
  }

  lemma HexText(c: char, d: Directive, v: nat, f: Flags, digits: string)
    requires c in {'x', 'X'} && 0 < v < 0x1_0000_0000 && IntBits(d.flags) == 32
    requires f == IntFlags(d.flags, c) && digits == Digits(v, 16, f.upper, 32)
    ensures IntText(c, d, v)
            == RevText(WithHash(WithZeros(digits, d.prec, d.width, f), 16, d.prec, d.width, f), d.width, f)
  {
    assert IntBits(f) == 32 && IntValue(c, f, v) == (v, false);
    assert IntText(c, d, v) == ConvertedText(v, false, 16, d.prec, d.width, f);
    UnsignedNtoa(digits, d.prec, d.width, f);
  }

  /** The prefix finds room, and does not take the place of digits. */
  predicate PrefixFits(digits: nat, d: Directive) {
    if d.flags.precise then d.flags.left || d.prec <= 30
    else if d.flags.zeropad && !d.flags.left then d.width <= 32 && d.width != digits && d.width != digits + 1
    else d.width != digits
  }

  lemma PrefixInBuffer(v: nat, digits: string, zeros: nat, prec: nat, width: nat, f: Flags)
    requires 1 <= |digits| <= 8 && DigitValue(digits[|digits| - 1]) > 0 && LowFirstValue(digits, 16) == v
    requires Within(digits, 16) && f.hash && |digits| + zeros <= 32
    ensures var b := digits + Repeat('0', zeros);
            var cut := !f.precise && (|b| == prec || |b| == width);
            ShowsPrefixed(RevText(WithHash(b, 16, prec, width, f), width, f), v, Letter(f)) <==>
            if cut then zeros >= 2 else |b| <= 30
  {
    var b := digits + Repeat('0', zeros);
    var cut := !f.precise && (|b| == prec || |b| == width);
    var m := if !cut then |b| else if |b| > 1 then |b| - 2 else 0;
    HashedBuffer(b, prec, width, f);
    if m <= 30 {
      PrefixedBuffer(b[..m], Letter(f), v, width, f);
      CutValue(v, digits, zeros, m);
    } else {
      FullBuffer(b, Letter(f), v, width, f, WithHash(b, 16, prec, width, f));
    }
  }

  /**
    "%#x" and "%#X" of any 32-bit number but 0 with any other flags, width and
    precision show the prefix and all digits exactly if the precision leaves
    room for the prefix and the width is not the one at which it takes digits.
   */
  lemma PrefixedReadsBackExactly(c: char, d: Directive, v: nat)
    requires c in {'x', 'X'} && 0 < v < 0x1_0000_0000 && ForInt(d) && d.flags.hash && !d.flags.upper
    ensures ShowsPrefixed(IntText(c, d, v), v, c) <==> PrefixFits(|Digits(v, 16, c == 'X', 32)|, d)
  {
    var f := IntFlags(d.flags, c);
    var digits := Digits(v, 16, c == 'X', 32);
    HexDigits(v, c == 'X', digits);
    HexText(c, d, v, f, digits);
    var zeros := FilledBuffer(digits, d.prec, d.width, f);
    PrefixInBuffer(v, digits, zeros, d.prec, d.width, f);
  }

  /** It happens: "%#4x" of 0x1234 prints 0x34. */
  lemma PrefixTakesDigits(d: Directive)
    requires d == Directive(NO_FLAGS.(hash := true), 4, 0, d.next, d.args)
    ensures !ShowsPrefixed(IntText('x', d, 0x1234), 0x1234, 'x')
  {
    FourDigits();
    PrefixedReadsBackExactly('x', d, 0x1234);
  }

  lemma FourDigits()
    ensures |Digits(0x1234, 16, false, 32)| == 4
  {
    assert |Digits(0x1, 16, false, 29)| == 1;
    assert |Digits(0x12, 16, false, 30)| == 2;
    assert |Digits(0x123, 16, false, 31)| == 3;
  }

  // ------------------------------------------------------- octal, binary and pointers

  lemma PrefixedAlone(digits: string, base: nat, f: Flags, b: string)
    requires |digits| <= 30 && f == NO_FLAGS.(hash := true) && base in {2, 8}
    requires b == if base == 8 then digits + ['0'] else digits + ['b'] + ['0']
    ensures WithHash(WithZeros(digits, 0, 0, f), base, 0, 0, f) == b
  {
    assert digits + Repeat('0', 0) == digits;
  }

  lemma PrefixReversed(digits: string, base: nat, b: string)
    requires b == if base == 8 then digits + ['0'] else digits + ['b'] + ['0']
    ensures Reversed(b) == (if base == 8 then "0" else "0b") + Reversed(digits)
  {
    if base == 8 {
      ReversedAppend(digits, '0');
    } else {
      ReversedAppend(digits + ['b'], '0');
      ReversedAppend(digits, 'b');
      assert ['0'] + (['b'] + Reversed(digits)) == "0b" + Reversed(digits);
    }
  }

  lemma PrefixAlone(digits: string, base: nat, f: Flags)
    requires |digits| <= 30 && f == NO_FLAGS.(hash := true) && base in {2, 8}
    ensures NtoaText(digits, false, base, 0, 0, f) == (if base == 8 then "0" else "0b") + Reversed(digits)
  {
    var b := if base == 8 then digits + ['0'] else digits + ['b'] + ['0'];
    PrefixedAlone(digits, base, f, b);
    assert NtoaText(digits, false, base, 0, 0, f) == RevText(b, 0, f);
    NoPadding(b, f);
    PrefixReversed(digits, base, b);
  }

  lemma UnsignedAlone(c: char, f: Flags, v: nat)
    requires c in {'o', 'b'} && v < 0x1_0000_0000 && f == NO_FLAGS.(hash := true)
    ensures IntFlags(f, c) == f && IntValue(c, f, v) == (v, false)
  {
  }

  /** A number with the '#' flag alone: its digits behind the prefix of its base. */
  lemma HashAlone(c: char, d: Directive, v: nat, digits: string)
    requires c in {'o', 'b'} && 0 < v < 0x1_0000_0000 && d.width == 0 && d.prec == 0
    requires d.flags == NO_FLAGS.(hash := true)
    requires digits == Digits(v, BaseOf(c), false, 32) && |digits| <= 30
    ensures IntText(c, d, v) == (if c == 'o' then "0" else "0b") + Reversed(digits)
  {
    var f, base := d.flags, BaseOf(c);
    UnsignedAlone(c, f, v);
    TextOfValue(c, d, v, f, v, false);
    NonzeroText(v, false, base, 0, 0, f, digits);
    PrefixAlone(digits, base, f);
  }

  lemma BarePointerText(v: nat, digits: string)
    requires v < 0x1_0000_0000 && digits == Digits(v, 16, true, 32) && |digits| <= 8
    ensures PointerText(BARE, v) == Reversed(digits + Repeat('0', 8 - |digits|))
  {
    var f := NO_FLAGS.(zeropad := true, upper := true);
    PointerBuffer(v, BARE, digits, f);
    assert digits + Repeat('0', 0) == digits;
  }

  /** A bare pointer is eight upper-case hexadecimal digits. */
  lemma BarePointer(v: nat, s: string)
    requires v < 0x1_0000_0000 && s == PointerText(BARE, v)
    ensures |s| == 8 && TextValue(s, 16) == v && forall k | 0 <= k < 8 :: DigitOf(s[k], true)
  {
    var digits := Digits(v, 16, true, 32);
    EightHexDigits(v);
    BarePointerText(v, digits);
    var buf := digits + Repeat('0', 8 - |digits|);
    PointerDigits(v, false, digits);
    ZerosAddNothing(digits, 8 - |digits|, 16);
    ReversedValue(buf, 16);
    DigitCase(v, 16, true, 32);
    forall k | 0 <= k < 8
      ensures DigitOf(s[k], true)
    {
      ReversedAt(buf, k);
    }
  }
}
