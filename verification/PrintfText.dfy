/**
  What _vsnprintf of kernel/src/lib/sprintf.c prints, as a function of the
  format and the arguments alone: no sink, no buffer, no maximum length.

  Variable arguments are a sequence and a position in it. Reading past its end
  or an argument of the wrong kind is undefined in C; here it reads 0 or "".
  The text of a floating-point directive is a parameter.
 */
module PrintfText {
  import opened NumberText

  /** PRINTF_NTOA_BUFFER_SIZE. */
  const NTOA_BUFFER: nat := 32

  datatype Arg = IntArg(i: int) | StrArg(s: string) | FloatArg(f: real)

  datatype Flags = Flags(
    zeropad: bool, left: bool, plus: bool, space: bool, hash: bool, upper: bool,
    charLen: bool, shortLen: bool, longLen: bool, longLong: bool, precise: bool)

  const NO_FLAGS := Flags(false, false, false, false, false, false, false, false, false, false, false)

  /** A directive between its '%' and its specifier, at format position `next`. */
  datatype Directive = Directive(flags: Flags, width: nat, prec: nat, next: nat, args: nat)

  /** _ftoa and _etoa: the specifier, the flags, the width, the precision and the argument to a text. */
  type FloatText = (char, Flags, nat, nat, Arg) -> string

  function IntAt(args: seq<Arg>, a: nat): int {
    if a < |args| && args[a].IntArg? then args[a].i else 0
  }

  function StrAt(args: seq<Arg>, a: nat): string {
    if a < |args| && args[a].StrArg? then args[a].s else ""
  }

  function ArgAt(args: seq<Arg>, a: nat): Arg {
    if a < |args| then args[a] else IntArg(0)
  }

  // ------------------------------------------------------- machine integers

  function Unsigned(v: int, bits: nat): nat {
    if bits == 8 then v % 0x100 else if bits == 16 then v % 0x1_0000
    else if bits == 32 then v % 0x1_0000_0000 else v % 0x1_0000_0000_0000_0000
  }

  /** Two's complement. */
  function Signed(v: int, bits: nat): int {
    var u := Unsigned(v, bits);
    if bits == 8 then (if u < 0x80 then u else u - 0x100)
    else if bits == 16 then (if u < 0x8000 then u else u - 0x1_0000)
    else if bits == 32 then (if u < 0x8000_0000 then u else u - 0x1_0000_0000)
    else if u < 0x8000_0000_0000_0000 then u else u - 0x1_0000_0000_0000_0000
  }

  /** The argument's width, in the order the branches test the flags; long has 32 bits. */
  function IntBits(f: Flags): nat {
    if f.longLong then 64 else if f.longLen then 32 else if f.charLen then 8 else if f.shortLen then 16 else 32
  }

  // ------------------------------------------------------- parsing a directive

  function FlagOf(f: Flags, c: char): Flags {
    match c
    case '0' => f.(zeropad := true)
    case '-' => f.(left := true)
    case '+' => f.(plus := true)
    case ' ' => f.(space := true)
    case '#' => f.(hash := true)
    case _ => f
  }

  predicate IsFlag(c: char) {
    c == '0' || c == '-' || c == '+' || c == ' ' || c == '#'
  }

  function ParseFlags(fmt: string, i: nat, f: Flags): (r: (Flags, nat))
    ensures r.1 >= i && r.0.precise == f.precise
    decreases |fmt| - i
  {
    if IsFlag(At(fmt, i)) then ParseFlags(fmt, i + 1, FlagOf(f, At(fmt, i))) else (f, i)
  }

  /** _atoi: an unsigned int, so modulo 2^32. */
  function ParseNumber(fmt: string, i: nat, acc: nat): (r: (nat, nat))
    ensures r.1 >= i
    decreases |fmt| - i
  {
    if IsDigit(At(fmt, i))
    then ParseNumber(fmt, i + 1, (acc * 10 + (At(fmt, i) as int - '0' as int)) % 0x1_0000_0000)
    else (acc, i)
  }

  function ParseWidth(fmt: string, d: Directive, args: seq<Arg>): (r: Directive)
    ensures r.next >= d.next && r.args >= d.args && r.prec == d.prec
  {
    if IsDigit(At(fmt, d.next)) then
      var (w, n) := ParseNumber(fmt, d.next, 0);
      d.(width := w, next := n)
    else if At(fmt, d.next) == '*' then
      var w := Int32(IntAt(args, d.args));
      d.(flags := if w < 0 then d.flags.(left := true) else d.flags,
         width := if w < 0 then -w else w,
         next := d.next + 1, args := d.args + 1)
    else d
  }

  function ParsePrecision(fmt: string, d: Directive, args: seq<Arg>): (r: Directive)
    ensures r.next >= d.next && r.args >= d.args && (r.prec == d.prec || r.flags.precise)
  {
    if At(fmt, d.next) != '.' then d
    else
      var e := d.(flags := d.flags.(precise := true), next := d.next + 1);
      if IsDigit(At(fmt, e.next)) then
        var (p, n) := ParseNumber(fmt, e.next, 0);
        e.(prec := p, next := n)
      else if At(fmt, e.next) == '*' then
        var p := Int32(IntAt(args, e.args));
        e.(prec := if p > 0 then p else 0, next := e.next + 1, args := e.args + 1)
      else e
  }

  /** The length field that starts with c, followed by e: its flags and how long it is. */
  function LengthField(f: Flags, c: char, e: char): (r: (Flags, nat))
    ensures r.0.precise == f.precise && r.1 <= 2
  {
    match c
    case 'l' => if e == 'l' then (f.(longLen := true, longLong := true), 2) else (f.(longLen := true), 1)
    case 'h' => if e == 'h' then (f.(shortLen := true, charLen := true), 2) else (f.(shortLen := true), 1)
    case 't' => (f.(longLen := true), 1)
    case 'j' => (f.(longLong := true), 1)
    case 'z' => (f.(longLen := true), 1)
    case _ => (f, 0)
  }

  function ParseLength(fmt: string, d: Directive): (r: Directive)
    ensures r.next >= d.next && r.args == d.args && r.prec == d.prec && r.flags.precise == d.flags.precise
  {
    var (f, n) := LengthField(d.flags, At(fmt, d.next), At(fmt, d.next + 1));
    d.(flags := f, next := d.next + n)
  }

  /** The directive whose '%' stands at position i. */
  function Parse(fmt: string, i: nat, args: seq<Arg>, a: nat): (d: Directive)
    ensures d.next > i && d.args >= a && (d.prec != 0 ==> d.flags.precise)
  {
    var (f, n) := ParseFlags(fmt, i + 1, NO_FLAGS);
    ParseLength(fmt, ParsePrecision(fmt, ParseWidth(fmt, Directive(f, 0, 0, n, a), args), args))
  }

  // ------------------------------------------------------- what a directive prints

  function Repeat(c: char, n: nat): (s: string)
    ensures |s| == n
  {
    seq(n, _ => c)
  }

  function Missing(width: nat, len: nat): nat {
    if len < width then width - len else 0
  }

  /** Text in a field: spaces before it, or behind it with the '-' flag. */
  function Padded(text: string, width: nat, left: bool): (s: string)
    ensures |s| == if |text| < width then width else |text|
  {
    if left then text + Repeat(' ', Missing(width, |text|))
    else Repeat(' ', Missing(width, |text|)) + text
  }

  /** _out_rev: the buffer reversed; leading spaces only without '0' and '-'. */
  function RevText(buf: string, width: nat, f: Flags): string {
    if f.left then Padded(Reversed(buf), width, true)
    else if f.zeropad then Reversed(buf)
    else Padded(Reversed(buf), width, false)
  }

  function ZeroFilled(buf: string, n: nat): (r: string)
    requires |buf| <= NTOA_BUFFER
    ensures |buf| <= |r| <= NTOA_BUFFER && r[..|buf|] == buf
  {
    var m := if n < NTOA_BUFFER then n else NTOA_BUFFER;
    buf + Repeat('0', Missing(m, |buf|))
  }

  function Push(buf: string, c: char): (r: string)
    requires |buf| <= NTOA_BUFFER
    ensures |r| <= NTOA_BUFFER
  {
    if |buf| < NTOA_BUFFER then buf + [c] else buf
  }

  /** The width left for padding once a sign column is set aside. */
  function SignedWidth(width: nat, negative: bool, f: Flags): nat {
    if !f.left && width > 0 && f.zeropad && (negative || f.plus || f.space) then width - 1 else width
  }

  function WithZeros(buf: string, prec: nat, width: nat, f: Flags): (r: string)
    requires |buf| <= NTOA_BUFFER
    ensures |r| <= NTOA_BUFFER
  {
    if f.left then buf
    else
      var b := ZeroFilled(buf, prec);
      if f.zeropad then ZeroFilled(b, width) else b
  }

  /** The '#' flag: zeros make room for the prefix, then the prefix follows. */
  function WithHash(buf: string, base: nat, prec: nat, width: nat, f: Flags): (r: string)
    requires |buf| <= NTOA_BUFFER
    ensures |r| <= NTOA_BUFFER
  {
    if !f.hash then buf
    else
      var n := |buf|;
      var cut := !f.precise && n > 0 && (n == prec || n == width);
      var m := if !cut then n else if n > 1 && base == 16 then n - 2 else n - 1;
      var b := buf[..m];
      var b1 := if base == 16 then Push(b, if f.upper then 'X' else 'x')
                else if base == 2 then Push(b, 'b') else b;
      Push(b1, '0')
  }

  function WithSign(buf: string, negative: bool, f: Flags): (r: string)
    requires |buf| <= NTOA_BUFFER
    ensures |r| <= NTOA_BUFFER
  {
    if negative then Push(buf, '-')
    else if f.plus then Push(buf, '+')
    else if f.space then Push(buf, ' ')
    else buf
  }

  /** _ntoa_format. */
  function NtoaText(digits: string, negative: bool, base: nat, prec: nat, width: nat, f: Flags): string
    requires |digits| <= NTOA_BUFFER
  {
    var w := SignedWidth(width, negative, f);
    RevText(WithSign(WithHash(WithZeros(digits, prec, w, f), base, prec, w, f), negative, f), w, f)
  }

  /** _ntoa_long and _ntoa_long_long. */
  function ConvertedText(v: nat, negative: bool, base: nat, prec: nat, width: nat, f: Flags): string
  {
    var g := if v == 0 then f.(hash := false) else f;
    var digits := if !g.precise || v != 0 then Digits(v, base, g.upper, NTOA_BUFFER) else [];
    NtoaText(digits, negative, base, prec, width, g)
  }

  predicate IsIntSpec(c: char) {
    c == 'd' || c == 'i' || c == 'u' || c == 'x' || c == 'X' || c == 'o' || c == 'b'
  }

  predicate IsFloatSpec(c: char) {
    c == 'f' || c == 'F' || c == 'e' || c == 'E' || c == 'g' || c == 'G'
  }

  function BaseOf(c: char): (b: nat)
    ensures IsBase(b)
  {
    if c == 'x' || c == 'X' then 16 else if c == 'o' then 8 else if c == 'b' then 2 else 10
  }

  /** The flag adjustments of the integer case. */
  function IntFlags(f: Flags, c: char): Flags {
    var signed := c == 'i' || c == 'd';
    f.(hash := f.hash && BaseOf(c) != 10, upper := f.upper || c == 'X', plus := f.plus && signed,
       space := f.space && signed, zeropad := f.zeropad && !f.precise)
  }

  /** The magnitude of an integer argument and whether it is negative. */
  function IntValue(c: char, f: Flags, v: int): (nat, bool) {
    if c == 'i' || c == 'd' then
      var n := Signed(v, IntBits(f));
      (if n > 0 then n else 0 - n, n < 0)
    else (Unsigned(v, IntBits(f)), false)
  }

  function IntText(c: char, d: Directive, v: int): string {
    var f := IntFlags(d.flags, c);
    var (m, negative) := IntValue(c, f, v);
    ConvertedText(m, negative, BaseOf(c), d.prec, d.width, f)
  }

  function PointerText(d: Directive, v: int): string {
    ConvertedText(Unsigned(v, 32), false, 16, d.prec, 8, d.flags.(zeropad := true, upper := true))
  }

  function ByteChar(v: int): char {
    (v % 256) as char
  }

  /** The characters of a C string before its terminator. */
  function CString(s: string): (r: string)
    ensures r <= s
  {
    if s == [] || s[0] == '\0' then [] else [s[0]] + CString(s[1..])
  }

  lemma {:induction false} CStringEnds(s: string)
    ensures At(s, |CString(s)|) == '\0'
    ensures forall p | 0 <= p < |CString(s)| :: s[p] == CString(s)[p] != '\0'
    decreases |s|
  {
    if s != [] && s[0] != '\0' {
      CStringEnds(s[1..]);
      var t := CString(s[1..]);
      forall p | 0 <= p < |t| + 1
        ensures s[p] == CString(s)[p] != '\0'
      {
        if p > 0 { assert s[p] == s[1..][p - 1] == t[p - 1]; }
      }
    }
  }

  /** The part of a string argument that a precision lets through. */
  function Shown(s: string, precise: bool, prec: nat): string {
    var t := CString(s);
    if precise && prec < |t| then t[..prec] else t
  }

  function StringText(d: Directive, s: string): string {
    Padded(Shown(s, d.flags.precise, d.prec), d.width, d.flags.left)
  }

  /** What the directive prints of its argument x, with value v and string s; c is its specifier. */
  function ArgText(c: char, d: Directive, x: Arg, v: int, s: string, floats: FloatText): string {
    if IsIntSpec(c) then IntText(c, d, v)
    else if IsFloatSpec(c) then floats(c, d.flags, d.width, d.prec, x)
    else if c == 'c' then Padded([ByteChar(v)], d.width, d.flags.left)
    else if c == 's' then StringText(d, s)
    else if c == 'p' then PointerText(d, v)
    else [c]
  }

  function DirectiveText(c: char, d: Directive, args: seq<Arg>, floats: FloatText): string {
    ArgText(c, d, ArgAt(args, d.args), IntAt(args, d.args), StrAt(args, d.args), floats)
  }

  /** Whether the specifier takes an argument. */
  function ArgsTaken(c: char): nat {
    if IsIntSpec(c) || IsFloatSpec(c) || c == 'c' || c == 's' || c == 'p' then 1 else 0
  }

  /** What each directive prints: its specifier, the directive and all arguments to a text. */
  type Conversions = (char, Directive, seq<Arg>) -> string

  function Conversion(floats: FloatText): Conversions {
    (c: char, d: Directive, args: seq<Arg>) => DirectiveText(c, d, args, floats)
  }

  /** Everything _vsnprintf prints from format position i on. */
  function Render(fmt: string, i: nat, args: seq<Arg>, a: nat, conv: Conversions): string
    decreases |fmt| - i, 1
  {
    var c := At(fmt, i);
    if c == '\0' then []
    else if c != '%' then [c] + Render(fmt, i + 1, args, a, conv)
    else RenderFrom(fmt, Parse(fmt, i, args, a), args, conv)
  }

  /** Everything it prints from the specifier of directive d on. */
  function RenderFrom(fmt: string, d: Directive, args: seq<Arg>, conv: Conversions): string
    decreases |fmt| - d.next, 0, 1
  {
    conv(At(fmt, d.next), d, args) + RenderRest(fmt, d, args, conv)
  }

  /** Everything it prints behind the specifier of directive d. */
  function RenderRest(fmt: string, d: Directive, args: seq<Arg>, conv: Conversions): string
    decreases |fmt| - d.next, 0, 0
  {
    if d.next < |fmt| then Render(fmt, d.next + 1, args, d.args + ArgsTaken(fmt[d.next]), conv) else []
  }

  function Format(fmt: string, args: seq<Arg>, floats: FloatText): string {
    Render(fmt, 0, args, 0, Conversion(floats))
  }
}
