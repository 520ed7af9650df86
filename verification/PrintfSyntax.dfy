/**
  How a directive of kernel/src/lib/sprintf.c is written: flags, width,
  precision and length in this order, and what the engine reads from each.
 */
module PrintfSyntax {
  import opened NumberText
  import opened PrintfText
  import opened PrintfLaws
  import opened PrintfFields
  import opened PrintfCompose

  /** The fields between '%' and the specifier as they are written. */
  datatype Written = Written(flags: string, width: string, precision: string, length: string) {
    function Text(c: char): string {
      ['%'] + flags + width + precision + length + [c]
    }

    predicate Legal() {
      && FlagText(flags)
      && (width in {"", "*"} || (Digital(width) && width[0] != '0'))
      && (precision in {"", ".", ".*"} || (precision[0] == '.' && Digital(precision[1..])))
      && length in {"", "l", "ll", "h", "hh", "t", "j", "z"}
    }

    /** How many arguments the asterisks take. */
    function Stars(): nat {
      (if width == "*" then 1 else 0) + if precision == ".*" then 1 else 0
    }

    /** The width asked for; a negative one means left and its amount. */
    function Width(args: seq<Arg>): int {
      if width == "*" then Int32(IntAt(args, 0)) else ReadDecimal(width, 0, 0) % 0x1_0000_0000
    }

    function Precision(args: seq<Arg>): int {
      if precision == ".*" then Int32(IntAt(args, Stars() - 1))
      else if precision == "" then 0 else ReadDecimal(precision[1..], 0, 0) % 0x1_0000_0000
    }

    function Bits(): nat {
      if length in {"ll", "j"} then 64 else if length == "hh" then 8 else if length == "h" then 16 else 32
    }
  }

  predicate Digital(s: string) {
    s != [] && forall k | 0 <= k < |s| :: IsDigit(s[k])
  }

  ghost predicate StandsAt(fmt: string, i: nat, s: string) {
    i + |s| <= |fmt| && fmt[i..i + |s|] == s
  }

  /** A directive read with these meanings and nothing else. */
  ghost predicate Means(d: Directive, w: Written, args: seq<Arg>) {
    && d.flags.zeropad == ('0' in w.flags) && d.flags.plus == ('+' in w.flags)
    && d.flags.space == (' ' in w.flags) && d.flags.hash == ('#' in w.flags) && !d.flags.upper
    && d.flags.left == ('-' in w.flags || w.Width(args) < 0)
    && d.width == (if w.Width(args) < 0 then 0 - w.Width(args) else w.Width(args))
    && d.flags.precise == (w.precision != "")
    && d.prec == (if w.Precision(args) < 0 then 0 else w.Precision(args))
    && IntBits(d.flags) == w.Bits()
    && d.args == w.Stars()
  }

  // ------------------------------------------------------- field by field

  predicate FlagText(fs: string) {
    forall k | 0 <= k < |fs| :: fs[k] in {'0', '-', '+', ' ', '#'}
  }

  function WithFlags(fs: string, s: Flags): Flags {
    s.(zeropad := s.zeropad || '0' in fs, left := s.left || '-' in fs, plus := s.plus || '+' in fs,
       space := s.space || ' ' in fs, hash := s.hash || '#' in fs)
  }

  lemma InCons(fs: string, c: char)
    requires fs != []
    ensures c in fs <==> c == fs[0] || c in fs[1..]
  {
  }

  lemma FirstFlag(fs: string, s: Flags)
    requires fs != [] && fs[0] in {'0', '-', '+', ' ', '#'}
    ensures WithFlags(fs[1..], FlagOf(s, fs[0])) == WithFlags(fs, s)
  {
    InCons(fs, '0');
    InCons(fs, '-');
    InCons(fs, '+');
    InCons(fs, ' ');
    InCons(fs, '#');
  }

  lemma {:induction false} FlagsWritten(fmt: string, i: nat, fs: string, s: Flags)
    requires StandsAt(fmt, i, fs) && !IsFlag(At(fmt, i + |fs|)) && FlagText(fs)
    ensures ParseFlags(fmt, i, s) == (WithFlags(fs, s), i + |fs|)
    decreases |fs|
  {
    if fs == [] {
      assert WithFlags(fs, s) == s;
    } else {
      var rest, c := fs[1..], fs[0];
      assert fmt[i] == c && fmt[i + 1..i + 1 + |rest|] == rest;
      FlagsWritten(fmt, i + 1, rest, FlagOf(s, c));
      FirstFlag(fs, s);
    }
  }

  lemma {:induction false} NumberWritten(fmt: string, i: nat, s: string, k: nat, acc: nat)
    requires k <= |s| && StandsAt(fmt, i, s) && !IsDigit(At(fmt, i + |s|))
    requires forall k | 0 <= k < |s| :: IsDigit(s[k])
    ensures ParseNumber(fmt, i + k, acc) == (ParseNumber(s, k, acc).0, i + |s|)
    decreases |s| - k
  {
    if k < |s| {
      assert fmt[i + k] == s[k];
      NumberWritten(fmt, i, s, k + 1, (acc * 10 + (s[k] as int - '0' as int)) % 0x1_0000_0000);
    }
  }

  lemma ValueWritten(fmt: string, i: nat, s: string)
    requires StandsAt(fmt, i, s) && !IsDigit(At(fmt, i + |s|)) && Digital(s)
    ensures ParseNumber(fmt, i, 0) == (ReadDecimal(s, 0, 0) % 0x1_0000_0000, i + |s|)
  {
    NumberWritten(fmt, i, s, 0, 0);
    NumberIsValue(s, 0, 0, 0);
  }

  lemma WidthWritten(fmt: string, d: Directive, w: Written, args: seq<Arg>)
    requires w.Legal() && StandsAt(fmt, d.next, w.width) && d.args == 0 && d.width == 0
    requires !IsDigit(At(fmt, d.next + |w.width|)) && At(fmt, d.next + |w.width|) != '*'
    ensures var v := w.Width(args);
            ParseWidth(fmt, d, args)
            == d.(flags := d.flags.(left := d.flags.left || v < 0), width := if v < 0 then 0 - v else v,
                  next := d.next + |w.width|, args := if w.width == "*" then 1 else 0)
  {
    if w.width == "*" {
      assert fmt[d.next] == w.width[0];
    } else if w.width != "" {
      assert fmt[d.next] == w.width[0];
      ValueWritten(fmt, d.next, w.width);
    }
  }

  lemma PrecisionWritten(fmt: string, d: Directive, w: Written, args: seq<Arg>)
    requires w.Legal() && StandsAt(fmt, d.next, w.precision) && d.args == (if w.width == "*" then 1 else 0)
    requires d.prec == 0 && !d.flags.precise
    requires var c := At(fmt, d.next + |w.precision|); !IsDigit(c) && c != '*' && c != '.'
    ensures var v := w.Precision(args);
            ParsePrecision(fmt, d, args)
            == d.(flags := d.flags.(precise := w.precision != ""), prec := if v < 0 then 0 else v,
                  next := d.next + |w.precision|, args := w.Stars())
  {
    if w.precision != "" {
      assert fmt[d.next] == w.precision[0];
      if w.precision != "." {
        assert fmt[d.next + 1] == w.precision[1];
        if w.precision != ".*" {
          assert fmt[d.next + 1..d.next + 1 + |w.precision[1..]|] == w.precision[1..];
          ValueWritten(fmt, d.next + 1, w.precision[1..]);
        }
      }
    }
  }

  /** What a length field does to the flags. */
  lemma LengthMeans(f: Flags, w: Written, c: char, e: char)
    requires w.Legal() && IntBits(f) == 32 && !f.longLen
    requires match |w.length|
             case 0 => c !in {'l', 'h', 't', 'j', 'z'}
             case 1 => c == w.length[0] && e !in {'l', 'h'}
             case _ => c == w.length[0] && e == w.length[1]
    ensures var (g, n) := LengthField(f, c, e);
            && n == |w.length| && IntBits(g) == w.Bits()
            && g == f.(longLen := g.longLen, longLong := g.longLong, shortLen := g.shortLen, charLen := g.charLen)
  {
  }

  lemma LengthWritten(fmt: string, d: Directive, w: Written)
    requires w.Legal() && StandsAt(fmt, d.next, w.length)
    requires IntBits(d.flags) == 32 && !d.flags.longLen && At(fmt, d.next + |w.length|) !in {'l', 'h', 't', 'j', 'z'}
    ensures var r := ParseLength(fmt, d);
            && IntBits(r.flags) == w.Bits()
            && r == d.(flags := r.flags, next := d.next + |w.length|)
            && r.flags == d.flags.(longLen := r.flags.longLen, longLong := r.flags.longLong,
                                   shortLen := r.flags.shortLen, charLen := r.flags.charLen)
  {
    var c, e := At(fmt, d.next), At(fmt, d.next + 1);
    if |w.length| > 0 { assert fmt[d.next] == w.length[0]; }
    if |w.length| > 1 { assert fmt[d.next + 1] == w.length[1]; }
    LengthMeans(d.flags, w, c, e);
    LengthFrom(fmt, d, c, e, LengthField(d.flags, c, e));
  }

  // ------------------------------------------------------- the whole directive

  /** The fields stand one behind the other. */
  lemma FieldsStand(fmt: string, w: Written, c: char)
    requires fmt == w.Text(c)
    ensures var i := 1 + |w.flags|;
            var j := i + |w.width|;
            var k := j + |w.precision|;
            && fmt[0] == '%' && StandsAt(fmt, 1, w.flags) && StandsAt(fmt, i, w.width)
            && StandsAt(fmt, j, w.precision) && StandsAt(fmt, k, w.length)
            && |fmt| == k + |w.length| + 1 && fmt[|fmt| - 1] == c
  {
    var i := 1 + |w.flags|;
    var j := i + |w.width|;
    var k := j + |w.precision|;
    assert fmt[1..i] == w.flags;
    assert fmt[i..j] == w.width;
    assert fmt[j..k] == w.precision;
    assert fmt[k..k + |w.length|] == w.length;
  }

  /** What follows a field is the beginning of a later one or the specifier. */
  lemma NextField(fmt: string, w: Written, c: char)
    requires fmt == w.Text(c) && w.Legal() && !InDirective(c)
    ensures var i := 1 + |w.flags|;
            var j := i + |w.width|;
            var k := j + |w.precision|;
            && !IsFlag(fmt[i]) && !IsDigit(fmt[j]) && fmt[j] != '*'
            && !IsDigit(fmt[k]) && fmt[k] != '*' && fmt[k] != '.'
  {
    FieldsStand(fmt, w, c);
    var i := 1 + |w.flags|;
    var j := i + |w.width|;
    var k := j + |w.precision|;
    if w.length != "" { assert fmt[k] == w.length[0]; }
    if w.precision != "" { assert fmt[j] == w.precision[0]; }
    if w.width != "" { assert fmt[i] == w.width[0]; }
  }

  lemma MeansOf(w: Written, args: seq<Arg>, d: Directive, e: Directive, p: Directive, r: Directive)
    requires d.flags == WithFlags(w.flags, NO_FLAGS)
    requires var v := w.Width(args);
             e.flags == d.flags.(left := d.flags.left || v < 0) && e.width == if v < 0 then 0 - v else v
    requires var v := w.Precision(args);
             && p.flags == e.flags.(precise := w.precision != "") && p.prec == (if v < 0 then 0 else v)
             && p.width == e.width && p.args == w.Stars()
    requires IntBits(r.flags) == w.Bits() && r.width == p.width && r.prec == p.prec && r.args == p.args
    requires r.flags == p.flags.(longLen := r.flags.longLen, longLong := r.flags.longLong,
                                 shortLen := r.flags.shortLen, charLen := r.flags.charLen)
    ensures Means(r, w, args)
  {
  }

  /** Width, precision and length behind the flags. */
  lemma FieldsRead(fmt: string, w: Written, c: char, args: seq<Arg>, d: Directive)
    requires fmt == w.Text(c) && w.Legal() && !InDirective(c)
    requires d == Directive(WithFlags(w.flags, NO_FLAGS), 0, 0, 1 + |w.flags|, 0)
    ensures var r := ParseLength(fmt, ParsePrecision(fmt, ParseWidth(fmt, d, args), args));
            Means(r, w, args) && r.next == |fmt| - 1
  {
    FieldsStand(fmt, w, c);
    NextField(fmt, w, c);
    WidthWritten(fmt, d, w, args);
    var e := ParseWidth(fmt, d, args);
    PrecisionWritten(fmt, e, w, args);
    var p := ParsePrecision(fmt, e, args);
    LengthWritten(fmt, p, w);
    MeansOf(w, args, d, e, p, ParseLength(fmt, p));
  }

  /** A directive is read as it is written. */
  lemma WrittenIsRead(fmt: string, w: Written, c: char, args: seq<Arg>)
    requires fmt == w.Text(c) && w.Legal() && !InDirective(c)
    ensures Means(Parse(fmt, 0, args, 0), w, args) && Parse(fmt, 0, args, 0).next == |fmt| - 1
  {
    FieldsStand(fmt, w, c);
    NextField(fmt, w, c);
    FlagsWritten(fmt, 1, w.flags, NO_FLAGS);
    FieldsRead(fmt, w, c, args, Directive(WithFlags(w.flags, NO_FLAGS), 0, 0, 1 + |w.flags|, 0));
  }

  lemma OneComplete(fmt: string, c: char, d: Directive, x: seq<Arg>)
    requires |fmt| > 0 && fmt[0] == '%' && d == Parse(fmt, 0, x, 0) && d.next == |fmt| - 1 && fmt[d.next] == c
    requires c != '\0' && d.args + ArgsTaken(c) == |x|
    ensures Complete(fmt, 0, x, 0)
  {
    assert Complete(fmt, |fmt|, x, d.args + ArgsTaken(c));
  }

  lemma OneDirective(fmt: string, c: char, d: Directive, x: seq<Arg>, floats: FloatText)
    requires |fmt| > 0 && fmt[0] == '%' && d == Parse(fmt, 0, x, 0) && d.next == |fmt| - 1 && fmt[d.next] == c
    ensures Format(fmt, x, floats) == DirectiveText(c, d, x, floats)
  {
    var conv := Conversion(floats);
    assert RenderRest(fmt, d, x, conv) == [];
    assert Format(fmt, x, floats) == RenderFrom(fmt, d, x, conv);
  }

  /**
    Any directive in front of any format: its asterisks and its specifier take
    the first arguments, it prints with the meaning it is written with, and
    the rest of the format prints the rest of the arguments.
   */
  lemma DirectiveThenRest(w: Written, c: char, x: seq<Arg>, g: string, y: seq<Arg>, floats: FloatText)
    returns (d: Directive)
    requires w.Legal() && !InDirective(c) && |x| == w.Stars() + ArgsTaken(c)
    ensures Means(d, w, x)
    ensures Format(w.Text(c) + g, x + y, floats) == DirectiveText(c, d, x, floats) + Format(g, y, floats)
  {
    var fmt := w.Text(c);
    d := Parse(fmt, 0, x, 0);
    WrittenIsRead(fmt, w, c, x);
    FieldsStand(fmt, w, c);
    OneComplete(fmt, c, d, x);
    OneDirective(fmt, c, d, x, floats);
    FormatsJoin(fmt, x, g, y, floats);
  }
}
