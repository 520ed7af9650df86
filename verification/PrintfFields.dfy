/**
  What flags, width and precision do to the text that kernel/src/lib/sprintf.c
  prints: how wide a field is, and what is left without its padding.
 */
module PrintfFields {
  import Bits
  import opened NumberText
  import opened PrintfText
  import opened PrintfLaws

  // ------------------------------------------------------- numbers in a format

  /** The width or precision written in a format is its decimal value modulo 2^32. */
  lemma {:induction false} NumberIsValue(fmt: string, i: nat, acc: nat, full: nat)
    requires acc == full % 0x1_0000_0000
    ensures ParseNumber(fmt, i, acc).0 == ReadDecimal(fmt, i, full) % 0x1_0000_0000
    decreases |fmt| - i
  {
    if IsDigit(At(fmt, i)) {
      var d := DigitValue(fmt[i]);
      ModStep10(acc, full, d);
      NumberIsValue(fmt, i + 1, (acc * 10 + d) % 0x1_0000_0000, full * 10 + d);
    }
  }

  lemma ModStep10(acc: nat, full: nat, d: nat)
    requires acc == full % 0x1_0000_0000
    ensures (acc * 10 + d) % 0x1_0000_0000 == (full * 10 + d) % 0x1_0000_0000
  {
    var q, x := full / 0x1_0000_0000, acc * 10 + d;
    assert full * 10 + d == 0x1_0000_0000 * (10 * q) + x;
    assert x == 0x1_0000_0000 * (x / 0x1_0000_0000) + x % 0x1_0000_0000;
    Bits.ModUnique(full * 10 + d, 0x1_0000_0000, 10 * q + x / 0x1_0000_0000, x % 0x1_0000_0000);
  }

  // ------------------------------------------------------- how wide a field is

  lemma ZeroFilledLength(buf: string, n: nat)
    requires |buf| <= 32
    ensures |ZeroFilled(buf, n)| >= |buf| && (n <= 32 ==> |ZeroFilled(buf, n)| >= n)
  {
  }

  lemma HashKeepsLength(buf: string, base: nat, width: nat, f: Flags)
    requires |buf| <= 32
    ensures |WithHash(buf, base, 0, width, f)| >= |buf|
  {
  }

  /** Zero padding is done in the 32-character buffer, space padding is not. */
  lemma NtoaWidth(digits: string, negative: bool, base: nat, prec: nat, width: nat, f: Flags)
    requires |digits| <= 32 && (f.zeropad ==> prec == 0)
    ensures |NtoaText(digits, negative, base, prec, width, f)| >= width <==> f.left || !f.zeropad || width <= 32
  {
    if !f.left && f.zeropad {
      var w := SignedWidth(width, negative, f);
      var filled := WithZeros(digits, prec, w, f);
      ZeroFilledLength(ZeroFilled(digits, prec), w);
      HashKeepsLength(filled, base, w, f);
    }
  }

  /** An integer field is as wide as asked for, exactly unless it is zero-padded to more than 32 characters. */
  lemma FieldWidth(c: char, d: Directive, v: int)
    requires IsIntSpec(c) && (d.prec != 0 ==> d.flags.precise)
    ensures |IntText(c, d, v)| >= d.width <==> d.flags.left || !IntFlags(d.flags, c).zeropad || d.width <= 32
  {
    var f := IntFlags(d.flags, c);
    var (m, negative) := IntValue(c, f, v);
    var g := if m == 0 then f.(hash := false) else f;
    var digits := if !g.precise || m != 0 then Digits(m, BaseOf(c), g.upper, 32) else [];
    NtoaWidth(digits, negative, BaseOf(c), d.prec, d.width, g);
  }

  /** A string field: as wide as asked for, at most the precision shown, at the end the flags say. */
  lemma StringField(d: Directive, s: string)
    ensures var text, shown := StringText(d, s), Shown(s, d.flags.precise, d.prec);
            && shown <= CString(s) && (d.flags.precise ==> |shown| <= d.prec)
            && |text| == (if |shown| < d.width then d.width else |shown|)
            && (if d.flags.left then shown <= text else text[|text| - |shown|..] == shown)
            && (forall k | 0 <= k < |text| && (if d.flags.left then |shown| <= k else k < |text| - |shown|) ::
                  text[k] == ' ')
  {
  }

  /** A character field: the character at the end the flags say, spaces elsewhere. */
  lemma CharacterField(d: Directive, x: Arg, v: int, s: string, floats: FloatText)
    requires 0 <= v < 256
    ensures var text := ArgText('c', d, x, v, s, floats);
            && |text| == (if d.width > 1 then d.width else 1)
            && (forall k | 0 <= k < |text| :: text[k] == if k == (if d.flags.left then 0 else |text| - 1)
                                                          then v as char else ' ')
  {
  }

  lemma LeftNtoa(digits: string, negative: bool, base: nat, prec: nat, width: nat, f: Flags)
    requires |digits| <= 32 && f.left
    ensures NtoaText(digits, negative, base, prec, width, f)
            == NtoaText(digits, negative, base, prec, width, f.(zeropad := false))
  {
  }

  lemma LeftConverted(v: nat, negative: bool, base: nat, prec: nat, width: nat, f: Flags)
    requires f.left
    ensures ConvertedText(v, negative, base, prec, width, f)
            == ConvertedText(v, negative, base, prec, width, f.(zeropad := false))
  {
    var g := if v == 0 then f.(hash := false) else f;
    var digits := if !g.precise || v != 0 then Digits(v, base, g.upper, NTOA_BUFFER) else [];
    LeftNtoa(digits, negative, base, prec, width, g);
  }

  lemma SameConverted(v: nat, negative: bool, base: nat, prec: nat, width: nat, f: Flags, g: Flags)
    requires g == f.(zeropad := g.zeropad) && (f == g || f.left)
    ensures ConvertedText(v, negative, base, prec, width, g) == ConvertedText(v, negative, base, prec, width, f)
  {
    if f != g {
      assert f.(zeropad := false) == g.(zeropad := false);
      LeftConverted(v, negative, base, prec, width, f);
      LeftConverted(v, negative, base, prec, width, g);
    }
  }

  lemma TextOfValue(c: char, d: Directive, v: int, f: Flags, m: nat, negative: bool)
    requires f == IntFlags(d.flags, c) && (m, negative) == IntValue(c, f, v)
    ensures IntText(c, d, v) == ConvertedText(m, negative, BaseOf(c), d.prec, d.width, f)
  {
  }

  /** Different only in a sign for an unsigned number, '#' for a decimal one, '0' with a precision or '-'. */
  predicate NoDifference(c: char, d: Directive, e: Directive) {
    var f, g := d.flags, e.flags;
    && e.width == d.width && e.prec == d.prec
    && g == f.(zeropad := g.zeropad, plus := g.plus, space := g.space, hash := g.hash)
    && ((g.plus == f.plus && g.space == f.space) || c !in {'d', 'i'})
    && (g.hash == f.hash || c in {'d', 'i', 'u'})
    && (g.zeropad == f.zeropad || f.precise || f.left)
  }

  lemma AdjustedAlike(c: char, d: Directive, e: Directive, f: Flags, g: Flags)
    requires IsIntSpec(c) && NoDifference(c, d, e) && f == IntFlags(d.flags, c) && g == IntFlags(e.flags, c)
    ensures g == f.(zeropad := g.zeropad) && (f == g || f.left) && IntBits(f) == IntBits(g)
  {
  }

  /** Such directives print the same. */
  lemma IgnoredFlags(c: char, d: Directive, e: Directive, v: int)
    requires IsIntSpec(c) && NoDifference(c, d, e)
    ensures IntText(c, e, v) == IntText(c, d, v)
  {
    var f, g := IntFlags(d.flags, c), IntFlags(e.flags, c);
    AdjustedAlike(c, d, e, f, g);
    var (m, negative) := IntValue(c, f, v);
    TextOfValue(c, d, v, f, m, negative);
    TextOfValue(c, e, v, g, m, negative);
    SameConverted(m, negative, BaseOf(c), d.prec, d.width, f, g);
  }

  /** It happens: five in a field of 40 zeros comes out with 32 characters. */
  lemma WideZeroField(d: Directive)
    requires d == Directive(NO_FLAGS.(zeropad := true), 40, 0, d.next, d.args)
    ensures |IntText('d', d, 5)| < 40
  {
    FieldWidth('d', d, 5);
  }
}
