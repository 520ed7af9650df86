/**
  What the printed text means: numbers printed by the engine of
  kernel/src/lib/sprintf.c read back through atoi and htoi of
  kernel/src/lib/string.c, and text without directives prints as itself.
 */
module PrintfLaws {
  import opened NumberText
  import opened PrintfText

  /** A format without directives prints itself up to its terminator. */
  lemma {:induction false} LiteralFormat(fmt: string, i: nat, args: seq<Arg>, a: nat, conv: Conversions)
    requires i <= |fmt| && '%' !in fmt[i..]
    ensures Render(fmt, i, args, a, conv) == CString(fmt[i..])
    decreases |fmt| - i
  {
    if i < |fmt| && fmt[i] != '\0' {
      assert fmt[i] == fmt[i..][0];
      assert fmt[i..][1..] == fmt[i + 1..];
      LiteralFormat(fmt, i + 1, args, a, conv);
    }
  }

  /** Without flags, width and precision the buffer only gets its sign. */
  lemma PlainBuffer(digits: string, negative: bool, base: nat, upper: bool)
    requires |digits| < 32
    ensures NtoaText(digits, negative, base, 0, 0, NO_FLAGS.(upper := upper))
            == (if negative then "-" else "") + Reversed(digits)
  {
    var f := NO_FLAGS.(upper := upper);
    assert digits + Repeat('0', 0) == digits;
    assert WithHash(WithZeros(digits, 0, 0, f), base, 0, 0, f) == digits;
    var signed := WithSign(digits, negative, f);
    assert Repeat(' ', 0) + Reversed(signed) == Reversed(signed);
    if negative {
      ReversedHead(signed);
      assert signed[..|digits|] == digits;
    }
  }

  lemma NonzeroText(v: nat, negative: bool, base: nat, prec: nat, width: nat, f: Flags, digits: string)
    requires v > 0 && digits == Digits(v, base, f.upper, 32) && |digits| <= 32
    ensures ConvertedText(v, negative, base, prec, width, f) == NtoaText(digits, negative, base, prec, width, f)
  {
  }

  /** A flagless number is its digits behind an optional minus sign. */
  lemma PlainNumber(v: nat, negative: bool, base: nat, upper: bool)
    requires IsBase(base) && base != 2 && v < 0x1_0000_0000_0000_0000
    ensures ConvertedText(v, negative, base, 0, 0, NO_FLAGS.(upper := upper))
            == (if negative then "-" else "") + Reversed(Digits(v, base, upper, 32))
  {
    FewDigits(v, base, upper);
    PlainBuffer(Digits(v, base, upper, 32), negative, base, upper);
  }

  lemma FewDigits(v: nat, base: nat, upper: bool)
    requires IsBase(base) && base != 2 && v < 0x1_0000_0000_0000_0000
    ensures |Digits(v, base, upper, 32)| <= 22
  {
    BasePower(base, 22);
    EightToThe22();
    DigitsFit(v, base, upper, 32, 22);
  }

  /** A bare directive: '%' and its specifier. */
  const BARE := Directive(NO_FLAGS, 0, 0, 1, 0)

  lemma BareDirective(fmt: string, c: char, args: seq<Arg>, floats: FloatText)
    requires fmt == ['%', c]
    requires !IsFlag(c) && !IsDigit(c) && c !in {'*', '.', 'l', 'h', 't', 'j', 'z', '\0'}
    ensures Format(fmt, args, floats) == Conversion(floats)(c, BARE, args)
  {
    var conv := Conversion(floats);
    assert At(fmt, 0) == '%' && At(fmt, 1) == c && At(fmt, 2) == '\0';
    assert ParseFlags(fmt, 1, NO_FLAGS) == (NO_FLAGS, 1);
    assert Parse(fmt, 0, args, 0) == BARE;
    assert Render(fmt, 2, args, ArgsTaken(c), conv) == [];
    assert RenderFrom(fmt, BARE, args, conv) == conv(c, BARE, args) + [];
  }

  /** A bare integer specifier prints the integer with the flags it adjusts. */
  lemma BareInteger(fmt: string, c: char, v: int, floats: FloatText)
    requires IsIntSpec(c) && fmt == ['%', c]
    ensures Format(fmt, [IntArg(v)], floats) == IntText(c, BARE, v)
  {
    BareDirective(fmt, c, [IntArg(v)], floats);
  }

  lemma BareText(c: char, v: int, m: nat, negative: bool)
    requires (c == 'd' || c == 'x') && IntValue(c, NO_FLAGS, v) == (m, negative)
    ensures IntText(c, BARE, v) == ConvertedText(m, negative, BaseOf(c), 0, 0, NO_FLAGS.(upper := false))
  {
    assert IntFlags(NO_FLAGS, c) == NO_FLAGS == NO_FLAGS.(upper := false);
  }

  /** printf("%d") of an int, printf("%x") of an unsigned int. */
  lemma PlainText(fmt: string, c: char, v: int, m: nat, negative: bool, floats: FloatText)
    requires (c == 'd' || c == 'x') && fmt == ['%', c]
    requires IntValue(c, NO_FLAGS, v) == (m, negative) && m < 0x1_0000_0000_0000_0000
    ensures Format(fmt, [IntArg(v)], floats)
            == (if negative then "-" else "") + Reversed(Digits(m, BaseOf(c), false, 32))
  {
    BareInteger(fmt, c, v, floats);
    BareText(c, v, m, negative);
    PlainNumber(m, negative, BaseOf(c), false);
  }

  /** printf("%d") and atoi are inverse on every int, the least one included. */
  lemma DecimalPrintedReadsBack(v: int, floats: FloatText)
    requires -0x8000_0000 <= v < 0x8000_0000
    ensures AtoiValue(Format("%d", [IntArg(v)], floats)) == v
  {
    var m: nat := if v < 0 then -v else v;
    assert Signed(v, 32) == v;
    PlainText("%d", 'd', v, m, v < 0, floats);
    DecimalReads(v, Format("%d", [IntArg(v)], floats));
  }

  lemma DecimalReads(v: int, text: string)
    requires -0x8000_0000 <= v < 0x8000_0000
    requires var m := if v < 0 then -v else v;
             text == (if v < 0 then "-" else "") + Reversed(Digits(m, 10, false, 32))
    ensures AtoiValue(text) == v
  {
    var m: nat := if v < 0 then -v else v;
    if v < 0 {
      DecimalRoundTrip("-", m, false);
      assert At(text, 0) == '-';
    } else {
      DecimalRoundTrip("", m, false);
      assert text == Reversed(Digits(m, 10, false, 32));
      FirstIsDigit(m);
    }
  }

  lemma FirstIsDigit(m: nat)
    ensures IsDigit(Reversed(Digits(m, 10, false, 32))[0])
  {
    DigitsWithin(m, 10, false, 32);
    ReversedAt(Digits(m, 10, false, 32), 0);
  }

  /** printf("%x") and htoi are inverse on every 32-bit value. */
  lemma HexPrintedReadsBack(v: nat, floats: FloatText)
    requires v < 0x1_0000_0000
    ensures ReadHex(Format("%x", [IntArg(v)], floats), 0, 0) == v
  {
    PlainText("%x", 'x', v, v, false, floats);
    HexReads(v, Format("%x", [IntArg(v)], floats));
  }

  lemma HexReads(v: nat, text: string)
    requires v < 0x1_0000_0000
    requires text == "" + Reversed(Digits(v, 16, false, 32))
    ensures ReadHex(text, 0, 0) == v
  {
    HexRoundTrip(v, false);
    assert text == Reversed(Digits(v, 16, false, 32));
  }

  /** The printed number has no leading zero unless it is zero. */
  lemma PrintedHasNoLeadingZero(v: nat, base: nat, upper: bool)
    requires IsBase(base) && base != 2 && v < 0x1_0000_0000_0000_0000
    ensures var s := ConvertedText(v, false, base, 0, 0, NO_FLAGS.(upper := upper));
            s[0] == '0' <==> v == 0
  {
    PlainNumber(v, false, base, upper);
    var digits := Digits(v, base, upper, 32);
    assert "" + Reversed(digits) == Reversed(digits);
    ReversedAt(digits, 0);
    TopDigit(v, base, upper, digits);
  }

  lemma TopDigit(v: nat, base: nat, upper: bool, digits: string)
    requires IsBase(base) && base != 2 && v < 0x1_0000_0000_0000_0000 && digits == Digits(v, base, upper, 32)
    ensures digits[|digits| - 1] == '0' <==> v == 0
  {
    if v > 0 {
      FitsIn32(v, base);
      NoLeadingZero(v, base, upper, 32);
    } else {
      DigitRoundTrip(0, upper);
    }
  }

  lemma FitsIn32(v: nat, base: nat)
    requires IsBase(base) && base != 2 && v < 0x1_0000_0000_0000_0000
    ensures v < Power(base, 32)
  {
    BasePower(base, 22);
    EightToThe22();
    PowerMonotone(base, 22, 32);
  }

  /** "%llb" keeps the low 32 binary digits of a 64-bit value: the buffer ends there. */
  lemma BinaryKeepsLowDigits(v: nat)
    requires v < 0x1_0000_0000_0000_0000
    ensures var s := ConvertedText(v, false, 2, 0, 0, NO_FLAGS);
            s == Reversed(Digits(v, 2, false, 32)) && |s| <= 32
    ensures LowFirstValue(Digits(v, 2, false, 32), 2) == v % 0x1_0000_0000
  {
    var digits := Digits(v, 2, false, 32);
    DigitsValue(v, 2, false, 32);
    TwoToThe32();
    assert digits + Repeat('0', 0) == digits;
    assert Repeat(' ', 0) + Reversed(digits) == Reversed(digits);
  }
}
