/**
  Which numbers printed by kernel/src/lib/sprintf.c read back through atoi and
  htoi of kernel/src/lib/string.c once their spaces are cut off, whatever the
  flags, the width and the precision.
 */
module PrintfReadBack {
  import opened NumberText
  import opened PrintfText
  import opened PrintfLaws

  // ------------------------------------------------------- spaces

  function FrontCut(s: string): string {
    if s != [] && s[0] == ' ' then FrontCut(s[1..]) else s
  }

  function BackCut(s: string): string {
    if s != [] && s[|s| - 1] == ' ' then BackCut(s[..|s| - 1]) else s
  }

  function Unpadded(s: string): string { FrontCut(BackCut(s)) }

  lemma {:induction false} FrontCutSpaces(n: nat, s: string)
    requires s == [] || s[0] != ' '
    ensures FrontCut(Repeat(' ', n) + s) == s
  {
    var t := Repeat(' ', n) + s;
    if n == 0 {
      assert t == s;
    } else {
      assert t[1..] == Repeat(' ', n - 1) + s;
      FrontCutSpaces(n - 1, s);
    }
  }

  lemma {:induction false} BackCutSpaces(n: nat, s: string)
    requires s == [] || s[|s| - 1] != ' '
    ensures BackCut(s + Repeat(' ', n)) == s
  {
    var t := s + Repeat(' ', n);
    if n == 0 {
      assert t == s;
    } else {
      assert t[..|t| - 1] == s + Repeat(' ', n - 1);
      BackCutSpaces(n - 1, s);
    }
  }

  /** Cutting the spaces off leaves what they surround. */
  lemma UnpaddedSpaces(s: string, before: nat, behind: nat)
    requires s == [] || (s[0] != ' ' && s[|s| - 1] != ' ')
    ensures Unpadded(Repeat(' ', before) + s + Repeat(' ', behind)) == s
  {
    if s == [] {
      assert Repeat(' ', before) + s + Repeat(' ', behind) == [] + Repeat(' ', before + behind);
      BackCutSpaces(before + behind, []);
    } else {
      BackCutSpaces(behind, Repeat(' ', before) + s);
      FrontCutSpaces(before, s);
    }
  }

  // ------------------------------------------------------- the parts of a printed number

  /** The sign is put in front last, and only if the 32-character buffer has room left. */
  predicate SignFits(d: Directive) {
    d.flags.left || (d.prec < 32 && (d.flags.precise || !d.flags.zeropad || d.width <= 32))
  }

  /** The sign that shows; a space instead of a sign counts as padding. */
  function ShownSign(v: int, d: Directive): string {
    if !SignFits(d) then "" else if v < 0 then "-" else if d.flags.plus then "+" else ""
  }

  function Magnitude(v: int): nat { if v < 0 then -v else v }

  /** The digits in the buffer, lowest first, zeros included. */
  function Buffer(v: int, d: Directive): string
    requires |NumberDigits(v, d)| <= 32
  {
    var f := IntFlags(d.flags, 'd');
    WithZeros(NumberDigits(v, d), d.prec, SignedWidth(d.width, v < 0, f), f)
  }

  function NumberDigits(v: int, d: Directive): string {
    if !d.flags.precise || v != 0 then Digits(Magnitude(v), 10, IntFlags(d.flags, 'd').upper, 32) else []
  }

  /** A directive as the parser gives it, for an int. */
  predicate ForInt(d: Directive) {
    IntBits(d.flags) == 32 && (d.prec != 0 ==> d.flags.precise)
  }

  predicate IsInt(v: int) { -0x8000_0000 <= v < 0x8000_0000 }

  lemma FewNumberDigits(v: int, d: Directive)
    requires IsInt(v)
    ensures |NumberDigits(v, d)| <= 22
  {
    FewDigits(Magnitude(v), 10, IntFlags(d.flags, 'd').upper);
  }

  lemma RoomForSign(digits: string, prec: nat, width: nat, f: Flags, negative: bool)
    requires |digits| <= 22 && (negative || f.plus || f.space) && (prec != 0 ==> !f.zeropad)
    ensures |WithZeros(digits, prec, SignedWidth(width, negative, f), f)| < 32
            <==> f.left || (prec < 32 && (!f.zeropad || width <= 32))
  {
  }

  lemma {:induction false} ReversedAppend(s: string, c: char)
    ensures Reversed(s + [c]) == [c] + Reversed(s)
    decreases |s|
  {
    if s == [] {
      assert s + [c] == [c] && [c][1..] == [];
    } else {
      assert (s + [c])[1..] == s[1..] + [c];
      ReversedAppend(s[1..], c);
    }
  }

  /** What _ntoa_format emits, apart from spaces. */
  lemma SignedText(buf: string, negative: bool, f: Flags, sign: string)
    requires |buf| <= 32
    requires sign == if |buf| >= 32 then "" else if negative then "-" else if f.plus then "+"
                     else if f.space then " " else ""
    ensures Reversed(WithSign(buf, negative, f)) == sign + Reversed(buf)
  {
    if sign != "" { ReversedAppend(buf, sign[0]); }
  }

  lemma PaddedSpaces(s: string, width: nat, left: bool) returns (before: nat, behind: nat)
    ensures Padded(s, width, left) == Repeat(' ', before) + s + Repeat(' ', behind)
  {
    var n := if |s| < width then width - |s| else 0;
    if left {
      before, behind := 0, n;
      assert Repeat(' ', 0) + s == s;
    } else {
      before, behind := n, 0;
      assert Repeat(' ', n) + s + Repeat(' ', 0) == Repeat(' ', n) + s;
    }
  }

  lemma RevTextSpaces(buf: string, width: nat, f: Flags) returns (before: nat, behind: nat)
    ensures RevText(buf, width, f) == Repeat(' ', before) + Reversed(buf) + Repeat(' ', behind)
  {
    if !f.left && f.zeropad {
      before, behind := 0, 0;
      assert Repeat(' ', 0) + Reversed(buf) + Repeat(' ', 0) == Reversed(buf);
    } else {
      before, behind := PaddedSpaces(Reversed(buf), width, f.left);
    }
  }

  lemma SpaceSign(before: nat, sign: string, s: string, behind: nat)
    requires sign == " "
    ensures Repeat(' ', before) + (sign + s) + Repeat(' ', behind) == Repeat(' ', before + 1) + s + Repeat(' ', behind)
  {
    assert Repeat(' ', before) + sign == Repeat(' ', before + 1);
  }

  lemma TextParts(buf: string, negative: bool, w: nat, f: Flags, shown: string) returns (before: nat, behind: nat)
    requires |buf| <= 32
    requires negative || f.plus ==> shown == if |buf| >= 32 then "" else if negative then "-" else "+"
    requires !negative && !f.plus ==> shown == ""
    ensures RevText(WithSign(buf, negative, f), w, f)
            == Repeat(' ', before) + (shown + Reversed(buf)) + Repeat(' ', behind)
  {
    before, behind := RevTextSpaces(WithSign(buf, negative, f), w, f);
    before := SignAsShown(buf, negative, f, before, behind, shown);
  }

  /** A printed int is spaces, its sign if there is room, zeros and digits, and spaces. */
  lemma PrintedParts(v: int, d: Directive) returns (before: nat, behind: nat)
    requires IsInt(v) && ForInt(d)
    ensures |NumberDigits(v, d)| <= 32
    ensures IntText('d', d, v)
            == Repeat(' ', before) + (ShownSign(v, d) + Reversed(Buffer(v, d))) + Repeat(' ', behind)
  {
    var f := IntFlags(d.flags, 'd');
    IntTextIsNtoa(v, d);
    var buf, w := Buffer(v, d), SignedWidth(d.width, v < 0, f);
    if v < 0 || f.plus || f.space { RoomForSign(NumberDigits(v, d), d.prec, d.width, f, v < 0); }
    before, behind := TextParts(buf, v < 0, w, f, ShownSign(v, d));
  }

  /** A sign shows, or is a space like those before it, or finds no room. */
  lemma SignAsShown(buf: string, negative: bool, f: Flags, n: nat, behind: nat, shown: string) returns (before: nat)
    requires |buf| <= 32
    requires negative || f.plus ==> shown == if |buf| >= 32 then "" else if negative then "-" else "+"
    requires !negative && !f.plus ==> shown == ""
    ensures Repeat(' ', n) + Reversed(WithSign(buf, negative, f)) + Repeat(' ', behind)
            == Repeat(' ', before) + (shown + Reversed(buf)) + Repeat(' ', behind)
  {
    before := n;
    var sign := if |buf| >= 32 then "" else if negative then "-" else if f.plus then "+"
                else if f.space then " " else "";
    SignedText(buf, negative, f, sign);
    if sign == " " {
      SpaceSign(n, sign, Reversed(buf), behind);
      before := n + 1;
      assert "" + Reversed(buf) == Reversed(buf);
    }
  }

  lemma IntTextIsNtoa(v: int, d: Directive)
    requires IsInt(v) && ForInt(d)
    ensures |NumberDigits(v, d)| <= 22
    ensures var f := IntFlags(d.flags, 'd');
            var w := SignedWidth(d.width, v < 0, f);
            IntText('d', d, v) == RevText(WithSign(Buffer(v, d), v < 0, f), w, f)
  {
    FewNumberDigits(v, d);
    assert Signed(v, 32) == v;
    var f := IntFlags(d.flags, 'd');
    assert f.(hash := false) == f;
  }

  // ------------------------------------------------------- reading them

  lemma {:induction false} ZerosAddNothing(s: string, n: nat, base: nat)
    ensures LowFirstValue(s + Repeat('0', n), base) == LowFirstValue(s, base)
    decreases |s|, n
  {
    var t := s + Repeat('0', n);
    if s == [] {
      assert t == Repeat('0', n);
      if n > 0 {
        assert t[1..] == [] + Repeat('0', n - 1);
        ZerosAddNothing([], n - 1, base);
        assert base * 0 == 0;
      }
    } else {
      assert t[1..] == s[1..] + Repeat('0', n);
      ZerosAddNothing(s[1..], n, base);
    }
  }

  /** Filling up with zeros keeps the value and the digits digits. */
  lemma BufferReads(digits: string, prec: nat, width: nat, f: Flags, base: nat)
    requires |digits| <= 32 && (base == 10 || base == 16) && Within(digits, base)
    ensures var buf := WithZeros(digits, prec, width, f);
            Within(buf, base) && LowFirstValue(buf, base) == LowFirstValue(digits, base)
  {
    var m := if prec < 32 then prec else 32;
    var b := ZeroFilled(digits, prec);
    ZerosAddNothing(digits, if |digits| < m then m - |digits| else 0, base);
    var k := if width < 32 then width else 32;
    ZerosAddNothing(b, if |b| < k then k - |b| else 0, base);
  }

  lemma NumberReads(v: int, d: Directive)
    requires IsInt(v)
    ensures |NumberDigits(v, d)| <= 32 && Within(Buffer(v, d), 10)
    ensures LowFirstValue(Buffer(v, d), 10) == Magnitude(v)
  {
    var digits, f := NumberDigits(v, d), IntFlags(d.flags, 'd');
    FewNumberDigits(v, d);
    if digits != [] {
      DigitsWithin(Magnitude(v), 10, f.upper, 32);
      DigitsValue(Magnitude(v), 10, f.upper, 32);
      RoomSuffices(10);
      SmallMod(Magnitude(v), Power(10, 32));
    }
    BufferReads(digits, d.prec, SignedWidth(d.width, v < 0, f), f, 10);
  }

  lemma ReversedDigits(buf: string, base: nat)
    requires (base == 10 || base == 16) && Within(buf, base)
    ensures Within(Reversed(buf), base)
  {
    forall k | 0 <= k < |buf| { ReversedAt(buf, k); }
  }

  /** What atoi makes of a sign and digits. */
  lemma SignedReads(sign: string, buf: string)
    requires (sign == "" || sign == "-" || sign == "+") && Within(buf, 10)
    ensures AtoiValue(sign + Reversed(buf))
            == ReadAs(sign, LowFirstValue(buf, 10))
  {
    var t := sign + Reversed(buf);
    ReversedDigits(buf, 10);
    ReadReversed(sign, buf, 0, 10);
    if sign == "" {
      assert t == Reversed(buf);
      assert t != [] ==> IsDigit(t[0]);
    } else {
      assert At(t, 0) == sign[0];
    }
  }

  lemma PartsAreNotSpaces(sign: string, buf: string)
    requires (sign == "" || sign == "-" || sign == "+") && Within(buf, 10)
    ensures var s := sign + Reversed(buf); s == [] || (s[0] != ' ' && s[|s| - 1] != ' ')
    ensures '-' in sign + Reversed(buf) <==> sign == "-"
  {
    ReversedDigits(buf, 10);
    var s, r := sign + Reversed(buf), Reversed(buf);
    assert forall k | 0 <= k < |r| :: r[k] != '-' && r[k] != ' ';
    if sign == "-" { assert s[0] == '-'; }
  }

  /** The minus sign shows exactly for negative numbers whose sign fits. */
  lemma MinusShows(v: int, d: Directive)
    requires IsInt(v) && ForInt(d)
    ensures '-' in IntText('d', d, v) <==> v < 0 && SignFits(d)
  {
    var before, behind := PrintedParts(v, d);
    NumberReads(v, d);
    PartsAreNotSpaces(ShownSign(v, d), Buffer(v, d));
    InMiddle('-', Repeat(' ', before), ShownSign(v, d) + Reversed(Buffer(v, d)), Repeat(' ', behind));
  }

  lemma InMiddle(c: char, a: string, b: string, e: string)
    requires c !in a && c !in e
    ensures c in a + b + e <==> c in b
  {
  }

  /**
    "%d" of any int with any flags, width and precision reads back exactly if
    its minus sign fits, or its plus sign, which atoi does not know, does not
    show. The least int reads back even without its sign.
   */
  lemma DecimalReadsBackExactly(v: int, d: Directive)
    requires IsInt(v) && ForInt(d)
    ensures AtoiValue(Unpadded(IntText('d', d, v))) == v <==>
            if v < 0 then SignFits(d) || v == -0x8000_0000 else v == 0 || !d.flags.plus || !SignFits(d)
  {
    PrintedReads(v, d);
    SignDecides(v, ShownSign(v, d));
  }

  /** What atoi makes of a printed int. */
  lemma PrintedReads(v: int, d: Directive)
    requires IsInt(v) && ForInt(d)
    ensures AtoiValue(Unpadded(IntText('d', d, v))) == ReadAs(ShownSign(v, d), Magnitude(v))
  {
    var before, behind := PrintedParts(v, d);
    var sign, buf := ShownSign(v, d), Buffer(v, d);
    NumberReads(v, d);
    PartsAreNotSpaces(sign, buf);
    UnpaddedSpaces(sign + Reversed(buf), before, behind);
    SignedReads(sign, buf);
  }

  function ReadAs(sign: string, m: nat): int {
    if sign == "+" then 0 else if sign == "-" then Int32(0 - m) else Int32(m)
  }

  lemma SignDecides(v: int, sign: string)
    requires IsInt(v) && (if v < 0 then sign == "" || sign == "-" else sign == "" || sign == "+")
    ensures ReadAs(sign, Magnitude(v)) == v <==>
            if v < 0 then sign == "-" || v == -0x8000_0000 else v == 0 || sign == ""
  {
  }

  /** It happens: "%033d" of -5 prints 32 characters, none of them a sign. */
  lemma SignGetsLost(d: Directive)
    requires d == Directive(NO_FLAGS.(zeropad := true), 33, 0, d.next, d.args)
    ensures '-' !in IntText('d', d, -5) && AtoiValue(Unpadded(IntText('d', d, -5))) != -5
  {
    MinusShows(-5, d);
    DecimalReadsBackExactly(-5, d);
  }

  // ------------------------------------------------------- how long a printed int is

  function Max(a: nat, b: nat): nat { if a < b then b else a }

  function Min(a: nat, b: nat): nat { if a < b then a else b }

  /** A sign or the space in its place. */
  predicate HasSignColumn(v: int, d: Directive) {
    SignFits(d) && (v < 0 || d.flags.plus || d.flags.space)
  }

  /** The precision asks for digits, up to the length of the buffer and not with '-'. */
  function DigitsWanted(v: int, d: Directive): nat {
    Max(|NumberDigits(v, d)|, if d.flags.left then 0 else Min(d.prec, 32))
  }

  /** Zeros fill up to the width, up to the length of the buffer. */
  predicate FillsWithZeros(d: Directive) {
    !d.flags.left && d.flags.zeropad && !d.flags.precise
  }

  lemma FilledLength(buf: string, prec: nat, width: nat, f: Flags)
    requires |buf| <= 32
    ensures |WithZeros(buf, prec, width, f)|
            == if f.left then |buf|
               else Max(Max(|buf|, Min(prec, 32)), if f.zeropad then Min(width, 32) else 0)
  {
  }

  lemma BufferLength(v: int, d: Directive)
    requires IsInt(v) && ForInt(d)
    ensures |NumberDigits(v, d)| <= 22
    ensures |Buffer(v, d)|
            == if FillsWithZeros(d)
               then Max(DigitsWanted(v, d), Min(SignedWidth(d.width, v < 0, IntFlags(d.flags, 'd')), 32))
               else DigitsWanted(v, d)
  {
    var f := IntFlags(d.flags, 'd');
    FewNumberDigits(v, d);
    FilledLength(NumberDigits(v, d), d.prec, SignedWidth(d.width, v < 0, f), f);
  }

  lemma SignLength(buf: string, v: int, d: Directive, f: Flags)
    requires |buf| <= 32 && f == IntFlags(d.flags, 'd')
    requires v < 0 || f.plus || f.space ==> (|buf| < 32 <==> SignFits(d))
    ensures |WithSign(buf, v < 0, f)| == |buf| + if HasSignColumn(v, d) then 1 else 0
  {
  }

  lemma RevLength(buf: string, width: nat, f: Flags)
    ensures |RevText(buf, width, f)| == if !f.left && f.zeropad then |buf| else Max(|buf|, width)
  {
  }

  /** The exact length of a field: what the number needs, or the width asked for, in zeros up to 32. */
  lemma FieldLength(v: int, d: Directive)
    requires IsInt(v) && ForInt(d)
    ensures |IntText('d', d, v)|
            == Max(DigitsWanted(v, d) + (if HasSignColumn(v, d) then 1 else 0),
                   if FillsWithZeros(d) then Min(d.width, 32) else d.width)
  {
    var f := IntFlags(d.flags, 'd');
    var w := SignedWidth(d.width, v < 0, f);
    BufferLength(v, d);
    var buf := Buffer(v, d);
    IntTextIsNtoa(v, d);
    if v < 0 || f.plus || f.space { RoomForSign(NumberDigits(v, d), d.prec, d.width, f, v < 0); }
    SignLength(buf, v, d, f);
    RevLength(WithSign(buf, v < 0, f), w, f);
  }

  /** Without its spaces a number that is not filled with zeros has its sign and the digits wanted. */
  lemma DigitsShown(v: int, d: Directive)
    requires IsInt(v) && ForInt(d) && !FillsWithZeros(d)
    ensures |Unpadded(IntText('d', d, v))| == |ShownSign(v, d)| + DigitsWanted(v, d)
  {
    var before, behind := PrintedParts(v, d);
    NumberReads(v, d);
    BufferLength(v, d);
    PartsAreNotSpaces(ShownSign(v, d), Buffer(v, d));
    UnpaddedSpaces(ShownSign(v, d) + Reversed(Buffer(v, d)), before, behind);
  }

  /** A number that is not negative starts with a space without a width exactly for the ' ' flag. */
  lemma SpaceShows(v: int, d: Directive)
    requires IsInt(v) && ForInt(d) && v >= 0 && d.width == 0
    ensures At(IntText('d', d, v), 0) == ' ' <==> d.flags.space && !d.flags.plus && SignFits(d)
  {
    var f := IntFlags(d.flags, 'd');
    IntTextIsNtoa(v, d);
    NumberReads(v, d);
    var buf := Buffer(v, d);
    if f.plus || f.space { RoomForSign(NumberDigits(v, d), d.prec, d.width, f, false); }
    NoPadding(WithSign(buf, false, f), f);
    SignedStart(buf, f);
  }

  lemma SignedStart(buf: string, f: Flags)
    requires |buf| <= 32 && Within(buf, 10)
    ensures At(Reversed(WithSign(buf, false, f)), 0) == ' ' <==> f.space && !f.plus && |buf| < 32
  {
    var sign := if |buf| >= 32 then "" else if f.plus then "+" else if f.space then " " else "";
    SignedText(buf, false, f, sign);
    ReversedDigits(buf, 10);
    StartsWith(sign, Reversed(buf));
  }

  lemma NoPadding(buf: string, f: Flags)
    ensures RevText(buf, 0, f) == Reversed(buf)
  {
    assert Reversed(buf) + Repeat(' ', 0) == Reversed(buf) && Repeat(' ', 0) + Reversed(buf) == Reversed(buf);
  }

  lemma StartsWith(sign: string, digits: string)
    requires |sign| <= 1 && Within(digits, 10)
    ensures At(sign + digits, 0) == ' ' <==> sign == " "
  {
    assert sign == "" ==> sign + digits == digits;
  }

  // ------------------------------------------------------- pointers

  /** The digits of a pointer in the buffer. */
  lemma PointerBuffer(v: nat, d: Directive, digits: string, f: Flags)
    requires v < 0x1_0000_0000 && f == d.flags.(zeropad := true, upper := true) && !f.hash && !f.plus && !f.space
    requires digits == if !f.precise || v != 0 then Digits(v, 16, true, 32) else []
    ensures |digits| <= 32 && PointerText(d, v) == RevText(WithZeros(digits, d.prec, 8, f), 8, f)
  {
    assert f.(hash := false) == f;
  }

  lemma PointerDigits(v: nat, precise: bool, digits: string)
    requires v < 0x1_0000_0000 && digits == if !precise || v != 0 then Digits(v, 16, true, 32) else []
    ensures |digits| <= 32 && Within(digits, 16) && LowFirstValue(digits, 16) == v
  {
    if digits != [] {
      DigitsWithin(v, 16, true, 32);
      DigitsValue(v, 16, true, 32);
      RoomSuffices(16);
      SmallMod(v, Power(16, 32));
    }
  }

  lemma {:induction false} HexStopsAtSpaces(s: string, n: nat, i: nat, acc: nat)
    requires i <= |s|
    ensures ReadHex(s + Repeat(' ', n), i, acc) == ReadHex(s, i, acc)
    decreases |s| - i
  {
    var t := s + Repeat(' ', n);
    if i < |s| {
      assert t[i] == s[i];
      if IsHex(s[i]) { HexStopsAtSpaces(s, n, i + 1, acc * 16 + DigitValue(s[i])); }
    } else {
      assert !IsHex(At(t, i)) && !IsHex(At(s, i));
    }
  }

  /** With neither '#' nor a sign flag a pointer reads back. */
  lemma BarePointerReadsBack(v: nat, d: Directive)
    requires v < 0x1_0000_0000 && !d.flags.hash && !d.flags.plus && !d.flags.space
    ensures ReadHex(PointerText(d, v), 0, 0) == v
  {
    var f := d.flags.(zeropad := true, upper := true);
    var digits := if !f.precise || v != 0 then Digits(v, 16, true, 32) else [];
    PointerBuffer(v, d, digits, f);
    PointerDigits(v, f.precise, digits);
    BufferReads(digits, d.prec, 8, f, 16);
    TextOfBuffer(WithZeros(digits, d.prec, 8, f), 8, f);
  }

  lemma TextOfBuffer(buf: string, width: nat, f: Flags)
    requires Within(buf, 16) && f.zeropad
    ensures ReadHex(RevText(buf, width, f), 0, 0) == LowFirstValue(buf, 16)
  {
    ReadReversed([], buf, 0, 16);
    assert [] + Reversed(buf) == Reversed(buf);
    if f.left { HexStopsAtSpaces(Reversed(buf), if |buf| < width then width - |buf| else 0, 0, 0); }
  }

  /** A buffer that ends in something htoi does not read, or in such a thing and a zero, reads as 0. */
  lemma BlockedBuffer(buf: string, width: nat, f: Flags)
    requires f.zeropad && buf != []
    requires !IsHex(buf[|buf| - 1]) || (|buf| > 1 && buf[|buf| - 1] == '0' && !IsHex(buf[|buf| - 2]))
    ensures ReadHex(RevText(buf, width, f), 0, 0) == 0
  {
    var r := Reversed(buf);
    ReversedAt(buf, 0);
    if |buf| > 1 { ReversedAt(buf, 1); }
    var t := RevText(buf, width, f);
    assert r <= t;
    if IsHex(t[0]) { assert ReadHex(t, 1, 0) == 0; }
  }

  lemma WithPrefix(z: string, f: Flags, prec: nat, width: nat)
    requires |z| < 32 && f.hash && f.upper
    ensures var h := WithHash(z, 16, prec, width, f);
            h != [] && (h[|h| - 1] == 'X' || (|h| > 1 && h[|h| - 1] == '0' && h[|h| - 2] == 'X'))
  {
  }

  lemma SignOnTop(h: string, f: Flags)
    requires h != [] && |h| <= 32
    ensures var s := WithSign(h, false, f);
            s == h || (s != [] && |s| == |h| + 1 && (s[|s| - 1] == '+' || s[|s| - 1] == ' '))
  {
  }

  /** The text of a pointer that is not 0, through its buffer. */
  lemma PointerText16(v: nat, d: Directive, f: Flags, w: nat, z: string)
    requires 0 < v < 0x1_0000_0000 && f == d.flags.(zeropad := true, upper := true) && w == SignedWidth(8, false, f)
    requires |Digits(v, 16, true, 32)| <= 32 && z == WithZeros(Digits(v, 16, true, 32), d.prec, w, f)
    ensures PointerText(d, v) == RevText(WithSign(WithHash(z, 16, d.prec, w, f), false, f), w, f)
  {
    NonzeroText(v, false, 16, d.prec, 8, f, Digits(v, 16, true, 32));
  }

  lemma {:induction false} EightHexDigits(v: nat)
    requires v < 0x1_0000_0000
    ensures |Digits(v, 16, true, 32)| <= 8
  {
    assert Power(16, 8) == 0x1_0000_0000 by { assert Power(16, 4) == 65536; }
    DigitsFit(v, 16, true, 32, 8);
  }

  /**
    "%p" of any address with any flags and precision reads back through htoi
    exactly if it is 0, shows neither a sign nor the '#' prefix for lack of
    flags, or a precision of 32 and more leaves them no room.
   */
  lemma PointerReadsBackExactly(v: nat, d: Directive)
    requires v < 0x1_0000_0000 && (d.prec != 0 ==> d.flags.precise)
    ensures ReadHex(PointerText(d, v), 0, 0) == v <==>
            v == 0 || !(d.flags.hash || d.flags.plus || d.flags.space) || (!d.flags.left && d.prec >= 32)
  {
    if !(d.flags.hash || d.flags.plus || d.flags.space) {
      BarePointerReadsBack(v, d);
    } else if v == 0 {
      NullPointerReadsBack(d);
    } else {
      SignedPointer(v, d);
    }
  }

  lemma SignedPointer(v: nat, d: Directive)
    requires 0 < v < 0x1_0000_0000 && (d.prec != 0 ==> d.flags.precise)
    requires d.flags.hash || d.flags.plus || d.flags.space
    ensures ReadHex(PointerText(d, v), 0, 0) == v <==> !d.flags.left && d.prec >= 32
  {
    var f := d.flags.(zeropad := true, upper := true);
    var w, digits := SignedWidth(8, false, f), Digits(v, 16, true, 32);
    EightHexDigits(v);
    var z := WithZeros(digits, d.prec, w, f);
    PointerText16(v, d, f, w, z);
    PointerRoom(digits, d.prec, w, f);
    if !f.left && d.prec >= 32 {
      PointerDigits(v, f.precise, digits);
      BufferReads(digits, d.prec, w, f, 16);
      TextOfBuffer(z, w, f);
    } else {
      BlockedText(z, d.prec, w, f);
    }
  }

  lemma PointerRoom(digits: string, prec: nat, w: nat, f: Flags)
    requires |digits| <= 8 && w <= 8 && (prec != 0 ==> f.precise)
    ensures var z := WithZeros(digits, prec, w, f);
            && (|z| < 32 <==> f.left || prec < 32)
            && (|z| == 32 ==> WithSign(WithHash(z, 16, prec, w, f), false, f) == z)
  {
  }

  lemma BlockedText(z: string, prec: nat, w: nat, f: Flags)
    requires |z| < 32 && f.zeropad && f.upper && (f.hash || f.plus || f.space)
    ensures ReadHex(RevText(WithSign(WithHash(z, 16, prec, w, f), false, f), w, f), 0, 0) == 0
  {
    var h := WithHash(z, 16, prec, w, f);
    if f.hash {
      WithPrefix(z, f, prec, w);
      SignOnTop(h, f);
    }
    BlockedBuffer(WithSign(h, false, f), w, f);
  }

  lemma NullPointerText(d: Directive, f: Flags, w: nat, digits: string)
    requires f == d.flags.(zeropad := true, upper := true, hash := false) && w == SignedWidth(8, false, f)
    requires digits == (if !f.precise then Digits(0, 16, true, 32) else []) && |digits| <= 32
    ensures PointerText(d, 0) == RevText(WithSign(WithZeros(digits, d.prec, w, f), false, f), w, f)
  {
  }

  lemma NullPointerReadsBack(d: Directive)
    ensures ReadHex(PointerText(d, 0), 0, 0) == 0
  {
    var f := d.flags.(zeropad := true, upper := true, hash := false);
    var w, digits := SignedWidth(8, false, f), if !f.precise then Digits(0, 16, true, 32) else [];
    PointerDigits(0, f.precise, digits);
    BufferReads(digits, d.prec, w, f, 16);
    NullPointerText(d, f, w, digits);
    SignedZero(WithZeros(digits, d.prec, w, f), w, f);
  }

  lemma SignedZero(z: string, w: nat, f: Flags)
    requires |z| <= 32 && Within(z, 16) && LowFirstValue(z, 16) == 0 && f.zeropad
    ensures ReadHex(RevText(WithSign(z, false, f), w, f), 0, 0) == 0
  {
    if WithSign(z, false, f) == z {
      TextOfBuffer(z, w, f);
    } else {
      BlockedBuffer(WithSign(z, false, f), w, f);
    }
  }
}
