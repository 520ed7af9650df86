/**
  How the text of a format of kernel/src/lib/sprintf.c is made of the texts of
  its parts: a format and the arguments it takes can be printed by themselves.
 */
module PrintfCompose {
  import opened NumberText
  import opened PrintfText
  import opened PrintfLaws

  /**
    From position i and argument a on, every directive of f has its specifier
    in f, and the arguments it takes end with the last one of x.
   */
  predicate Complete(f: string, i: nat, x: seq<Arg>, a: nat)
    decreases |f| - i
  {
    if i >= |f| then i == |f| && a == |x|
    else if f[i] == '\0' then false
    else if f[i] != '%' then Complete(f, i + 1, x, a)
    else
      var d := Parse(f, i, x, a);
      d.next < |f| && f[d.next] != '\0' && Complete(f, d.next + 1, x, d.args + ArgsTaken(f[d.next]))
  }

  lemma {:induction false} CompleteTakes(f: string, i: nat, x: seq<Arg>, a: nat)
    requires Complete(f, i, x, a)
    ensures a <= |x|
    decreases |f| - i
  {
    if i < |f| {
      if f[i] != '%' {
        CompleteTakes(f, i + 1, x, a);
      } else {
        var d := Parse(f, i, x, a);
        CompleteTakes(f, d.next + 1, x, d.args + ArgsTaken(f[d.next]));
      }
    }
  }

  // ------------------------------------------------------- a directive in front of more

  lemma {:induction false} FlagsInFront(f: string, g: string, i: nat, s: Flags)
    requires ParseFlags(f, i, s).1 < |f|
    ensures ParseFlags(f + g, i, s) == ParseFlags(f, i, s)
    decreases |f| - i
  {
    assert At(f + g, i) == At(f, i);
    if IsFlag(At(f, i)) { FlagsInFront(f, g, i + 1, FlagOf(s, At(f, i))); }
  }

  lemma {:induction false} NumberInFront(f: string, g: string, i: nat, acc: nat)
    requires ParseNumber(f, i, acc).1 < |f|
    ensures ParseNumber(f + g, i, acc) == ParseNumber(f, i, acc)
    decreases |f| - i
  {
    assert At(f + g, i) == At(f, i);
    if IsDigit(At(f, i)) {
      NumberInFront(f, g, i + 1, (acc * 10 + (At(f, i) as int - '0' as int)) % 0x1_0000_0000);
    }
  }

  lemma WidthInFront(f: string, g: string, d: Directive, x: seq<Arg>, y: seq<Arg>)
    requires ParseWidth(f, d, x).next < |f| && ParseWidth(f, d, x).args <= |x|
    ensures ParseWidth(f + g, d, x + y) == ParseWidth(f, d, x)
  {
    assert At(f + g, d.next) == At(f, d.next);
    if IsDigit(At(f, d.next)) { NumberInFront(f, g, d.next, 0); }
  }

  lemma PrecisionInFront(f: string, g: string, d: Directive, x: seq<Arg>, y: seq<Arg>)
    requires ParsePrecision(f, d, x).next < |f| && ParsePrecision(f, d, x).args <= |x|
    ensures ParsePrecision(f + g, d, x + y) == ParsePrecision(f, d, x)
  {
    assert At(f + g, d.next) == At(f, d.next);
    if At(f, d.next) == '.' {
      assert At(f + g, d.next + 1) == At(f, d.next + 1);
      if IsDigit(At(f, d.next + 1)) { NumberInFront(f, g, d.next + 1, 0); }
    }
  }

  lemma LengthInFront(f: string, g: string, d: Directive)
    requires ParseLength(f, d).next < |f|
    ensures ParseLength(f + g, d) == ParseLength(f, d)
  {
    var c, e, e' := At(f, d.next), At(f, d.next + 1), At(f + g, d.next + 1);
    assert At(f + g, d.next) == c;
    if LengthField(d.flags, c, e).1 == 0 {
      assert LengthField(d.flags, c, e') == LengthField(d.flags, c, e);
    } else {
      assert e' == e;
    }
  }

  lemma ParseInFront(f: string, g: string, i: nat, x: seq<Arg>, y: seq<Arg>, a: nat)
    requires Parse(f, i, x, a).next < |f| && Parse(f, i, x, a).args <= |x|
    ensures Parse(f + g, i, x + y, a) == Parse(f, i, x, a)
  {
    var (s, n) := ParseFlags(f, i + 1, NO_FLAGS);
    var d := Directive(s, 0, 0, n, a);
    var e := ParseWidth(f, d, x);
    var p := ParsePrecision(f, e, x);
    LengthInFront(f, g, p);
    PrecisionInFront(f, g, e, x, y);
    WidthInFront(f, g, d, x, y);
    FlagsInFront(f, g, i + 1, NO_FLAGS);
  }

  // ------------------------------------------------------- a directive behind more

  function Moved(d: Directive, f: string, x: seq<Arg>): Directive {
    d.(next := |f| + d.next, args := |x| + d.args)
  }

  lemma {:induction false} FlagsBehind(f: string, g: string, i: nat, s: Flags)
    ensures ParseFlags(f + g, |f| + i, s) == (ParseFlags(g, i, s).0, |f| + ParseFlags(g, i, s).1)
    decreases |g| - i
  {
    assert At(f + g, |f| + i) == At(g, i);
    if IsFlag(At(g, i)) { FlagsBehind(f, g, i + 1, FlagOf(s, At(g, i))); }
  }

  lemma {:induction false} NumberBehind(f: string, g: string, i: nat, acc: nat)
    ensures ParseNumber(f + g, |f| + i, acc) == (ParseNumber(g, i, acc).0, |f| + ParseNumber(g, i, acc).1)
    decreases |g| - i
  {
    assert At(f + g, |f| + i) == At(g, i);
    if IsDigit(At(g, i)) {
      NumberBehind(f, g, i + 1, (acc * 10 + (At(g, i) as int - '0' as int)) % 0x1_0000_0000);
    }
  }

  lemma WidthBehind(f: string, g: string, d: Directive, x: seq<Arg>, y: seq<Arg>)
    ensures ParseWidth(f + g, Moved(d, f, x), x + y) == Moved(ParseWidth(g, d, y), f, x)
  {
    assert At(f + g, |f| + d.next) == At(g, d.next);
    assert IntAt(x + y, |x| + d.args) == IntAt(y, d.args);
    NumberBehind(f, g, d.next, 0);
  }

  lemma PrecisionBehind(f: string, g: string, d: Directive, x: seq<Arg>, y: seq<Arg>)
    ensures ParsePrecision(f + g, Moved(d, f, x), x + y) == Moved(ParsePrecision(g, d, y), f, x)
  {
    assert At(f + g, |f| + d.next) == At(g, d.next);
    assert At(f + g, |f| + d.next + 1) == At(g, d.next + 1);
    assert IntAt(x + y, |x| + d.args) == IntAt(y, d.args);
    NumberBehind(f, g, d.next + 1, 0);
  }

  lemma LengthFrom(fmt: string, d: Directive, c: char, e: char, r: (Flags, nat))
    requires c == At(fmt, d.next) && e == At(fmt, d.next + 1) && r == LengthField(d.flags, c, e)
    ensures ParseLength(fmt, d) == d.(flags := r.0, next := d.next + r.1)
  {
  }

  lemma LengthBehind(f: string, g: string, d: Directive, x: seq<Arg>)
    ensures ParseLength(f + g, Moved(d, f, x)) == Moved(ParseLength(g, d), f, x)
  {
    var c, e := At(g, d.next), At(g, d.next + 1);
    var r := LengthField(d.flags, c, e);
    assert At(f + g, |f| + d.next) == c && At(f + g, |f| + d.next + 1) == e;
    LengthFrom(g, d, c, e, r);
    LengthFrom(f + g, Moved(d, f, x), c, e, r);
  }

  lemma ParseBehind(f: string, g: string, i: nat, x: seq<Arg>, y: seq<Arg>, a: nat)
    ensures Parse(f + g, |f| + i, x + y, |x| + a) == Moved(Parse(g, i, y, a), f, x)
  {
    var (s, n) := ParseFlags(g, i + 1, NO_FLAGS);
    FlagsBehind(f, g, i + 1, NO_FLAGS);
    assert ParseFlags(f + g, |f| + i + 1, NO_FLAGS) == (s, |f| + n);
    assert Directive(s, 0, 0, |f| + n, |x| + a) == Moved(Directive(s, 0, 0, n, a), f, x);
    FieldsBehind(f, g, Directive(s, 0, 0, n, a), x, y);
  }

  /** Width, precision and length. */
  lemma FieldsBehind(f: string, g: string, d: Directive, x: seq<Arg>, y: seq<Arg>)
    ensures ParseLength(f + g, ParsePrecision(f + g, ParseWidth(f + g, Moved(d, f, x), x + y), x + y))
            == Moved(ParseLength(g, ParsePrecision(g, ParseWidth(g, d, y), y)), f, x)
  {
    var e := ParseWidth(g, d, y);
    var p := ParsePrecision(g, e, y);
    WidthBehind(f, g, d, x, y);
    PrecisionBehind(f, g, e, x, y);
    LengthBehind(f, g, p, x);
  }

  // ------------------------------------------------------- what it prints

  lemma TextInFront(c: char, d: Directive, x: seq<Arg>, y: seq<Arg>, floats: FloatText)
    requires d.args + ArgsTaken(c) <= |x|
    ensures DirectiveText(c, d, x + y, floats) == DirectiveText(c, d, x, floats)
  {
    if ArgsTaken(c) > 0 { assert (x + y)[d.args] == x[d.args]; }
  }

  lemma ArgsBehind(x: seq<Arg>, y: seq<Arg>, a: nat)
    ensures IntAt(x + y, |x| + a) == IntAt(y, a)
    ensures StrAt(x + y, |x| + a) == StrAt(y, a)
    ensures ArgAt(x + y, |x| + a) == ArgAt(y, a)
  {
  }

  /** Where a directive is does not matter for what it prints. */
  lemma SameText(c: char, d: Directive, e: Directive, x: Arg, v: int, s: string, floats: FloatText)
    requires e.flags == d.flags && e.width == d.width && e.prec == d.prec
    ensures ArgText(c, e, x, v, s, floats) == ArgText(c, d, x, v, s, floats)
  {
  }

  lemma TextBehind(c: char, d: Directive, f: string, x: seq<Arg>, y: seq<Arg>, floats: FloatText)
    ensures DirectiveText(c, Moved(d, f, x), x + y, floats) == DirectiveText(c, d, y, floats)
  {
    var arg, v, s := ArgAt(y, d.args), IntAt(y, d.args), StrAt(y, d.args);
    ArgsBehind(x, y, d.args);
    SameText(c, d, Moved(d, f, x), arg, v, s, floats);
    assert DirectiveText(c, d, y, floats) == ArgText(c, d, arg, v, s, floats);
  }

  /** Only a trigger. */
  predicate Taken(c: char, d: Directive, x: seq<Arg>, y: seq<Arg>) { true }

  /** A conversion depends on the arguments it takes alone, not on where they and the directive are. */
  ghost predicate Local(conv: Conversions, f: string) {
    forall c, d, x, y {:trigger Taken(c, d, x, y)} | Taken(c, d, x, y) ::
      && conv(c, Moved(d, f, x), x + y) == conv(c, d, y)
      && (d.args + ArgsTaken(c) <= |x| ==> conv(c, d, x + y) == conv(c, d, x))
  }

  lemma ConversionIsLocal(floats: FloatText, f: string)
    ensures Local(Conversion(floats), f)
  {
    var conv := Conversion(floats);
    forall c, d, x, y | Taken(c, d, x, y)
      ensures conv(c, Moved(d, f, x), x + y) == conv(c, d, y)
      ensures d.args + ArgsTaken(c) <= |x| ==> conv(c, d, x + y) == conv(c, d, x)
    {
      TextBehind(c, d, f, x, y, floats);
      if d.args + ArgsTaken(c) <= |x| { TextInFront(c, d, x, y, floats); }
    }
  }

  lemma {:induction false} RenderBehind(f: string, g: string, i: nat, x: seq<Arg>, y: seq<Arg>, a: nat,
                                        conv: Conversions)
    requires Local(conv, f)
    ensures Render(f + g, |f| + i, x + y, |x| + a, conv) == Render(g, i, y, a, conv)
    decreases |g| - i, 1
  {
    var c := At(g, i);
    assert At(f + g, |f| + i) == c;
    if c == '\0' {
    } else if c != '%' {
      RenderBehind(f, g, i + 1, x, y, a, conv);
    } else {
      var d := Parse(g, i, y, a);
      ParseBehind(f, g, i, x, y, a);
      RestBehind(f, g, d, x, y, conv);
      DirectiveBehind(f, g, d, x, y, conv);
    }
  }

  lemma RestIs(fmt: string, d: Directive, args: seq<Arg>, conv: Conversions, n: nat, a: nat)
    requires d.next < |fmt| && n == d.next + 1 && a == d.args + ArgsTaken(fmt[d.next])
    ensures RenderRest(fmt, d, args, conv) == Render(fmt, n, args, a, conv)
  {
  }

  lemma {:induction false} RestBehind(f: string, g: string, d: Directive, x: seq<Arg>, y: seq<Arg>,
                                      conv: Conversions)
    requires Local(conv, f)
    ensures RenderRest(f + g, Moved(d, f, x), x + y, conv) == RenderRest(g, d, y, conv)
    decreases |g| - d.next, 0
  {
    if d.next < |g| {
      var n, a := d.next + 1, d.args + ArgsTaken(g[d.next]);
      RenderBehind(f, g, n, x, y, a, conv);
      assert (f + g)[|f| + d.next] == g[d.next];
      RestIs(g, d, y, conv, n, a);
      RestIs(f + g, Moved(d, f, x), x + y, conv, |f| + n, |x| + a);
    }
  }

  lemma DirectiveBehind(f: string, g: string, d: Directive, x: seq<Arg>, y: seq<Arg>, conv: Conversions)
    requires Local(conv, f)
    requires RenderRest(f + g, Moved(d, f, x), x + y, conv) == RenderRest(g, d, y, conv)
    ensures RenderFrom(f + g, Moved(d, f, x), x + y, conv) == RenderFrom(g, d, y, conv)
  {
    var c := At(g, d.next);
    assert At(f + g, |f| + d.next) == c;
    assert Taken(c, d, x, y);
  }

  lemma {:induction false} RenderJoined(f: string, g: string, i: nat, x: seq<Arg>, y: seq<Arg>, a: nat,
                                        conv: Conversions)
    requires Local(conv, f) && Complete(f, i, x, a)
    ensures Render(f + g, i, x + y, a, conv) == Render(f, i, x, a, conv) + Render(g, 0, y, 0, conv)
    decreases |f| - i, 1
  {
    if i == |f| {
      RenderBehind(f, g, 0, x, y, 0, conv);
    } else {
      assert At(f + g, i) == f[i];
      if f[i] != '%' {
        RenderJoined(f, g, i + 1, x, y, a, conv);
      } else {
        var d := Parse(f, i, x, a);
        RestJoined(f, g, d, x, y, conv);
        ParseInFront(f, g, i, x, y, a);
        DirectiveJoined(f, g, d, x, y, conv, Render(g, 0, y, 0, conv));
      }
    }
  }

  lemma {:induction false} RestJoined(f: string, g: string, d: Directive, x: seq<Arg>, y: seq<Arg>,
                                      conv: Conversions)
    requires Local(conv, f) && d.next < |f| && Complete(f, d.next + 1, x, d.args + ArgsTaken(f[d.next]))
    ensures d.args + ArgsTaken(f[d.next]) <= |x|
    ensures RenderRest(f + g, d, x + y, conv) == RenderRest(f, d, x, conv) + Render(g, 0, y, 0, conv)
    decreases |f| - d.next, 0
  {
    var n, a := d.next + 1, d.args + ArgsTaken(f[d.next]);
    CompleteTakes(f, n, x, a);
    RenderJoined(f, g, n, x, y, a, conv);
    assert (f + g)[d.next] == f[d.next];
    RestIs(f, d, x, conv, n, a);
    RestIs(f + g, d, x + y, conv, n, a);
  }

  lemma DirectiveJoined(f: string, g: string, d: Directive, x: seq<Arg>, y: seq<Arg>, conv: Conversions, tail: string)
    requires Local(conv, f) && d.next < |f| && d.args + ArgsTaken(f[d.next]) <= |x|
    requires RenderRest(f + g, d, x + y, conv) == RenderRest(f, d, x, conv) + tail
    ensures RenderFrom(f + g, d, x + y, conv) == RenderFrom(f, d, x, conv) + tail
  {
    var text, rest := conv(f[d.next], d, x), RenderRest(f, d, x, conv);
    assert At(f + g, d.next) == f[d.next];
    assert Taken(f[d.next], d, x, y);
    assert text + (rest + tail) == (text + rest) + tail;
  }

  /** A format that is complete with the arguments x prints by itself, whatever follows. */
  lemma FormatsJoin(f: string, x: seq<Arg>, g: string, y: seq<Arg>, floats: FloatText)
    requires Complete(f, 0, x, 0)
    ensures Format(f + g, x + y, floats) == Format(f, x, floats) + Format(g, y, floats)
  {
    ConversionIsLocal(floats, f);
    RenderJoined(f, g, 0, x, y, 0, Conversion(floats));
  }

  // ------------------------------------------------------- single directives and text

  /** The characters that do not end a directive. */
  predicate InDirective(c: char) {
    IsFlag(c) || IsDigit(c) || c in {'*', '.', 'l', 'h', 't', 'j', 'z', '\0'}
  }

  lemma BareParse(fmt: string, c: char, args: seq<Arg>)
    requires fmt == ['%', c] && !InDirective(c)
    ensures Parse(fmt, 0, args, 0) == BARE
  {
    assert At(fmt, 1) == c;
    assert ParseFlags(fmt, 1, NO_FLAGS) == (NO_FLAGS, 1);
  }

  lemma BareComplete(fmt: string, c: char, x: seq<Arg>)
    requires fmt == ['%', c] && !InDirective(c) && |x| == ArgsTaken(c)
    ensures Complete(fmt, 0, x, 0)
  {
    BareParse(fmt, c, x);
    assert fmt[BARE.next] == c;
    assert Complete(fmt, 2, x, ArgsTaken(c));
  }

  /** Every specifier prints the next argument, and exactly that one is taken. */
  lemma SpecifierThenRest(c: char, x: Arg, g: string, y: seq<Arg>, floats: FloatText)
    requires c in {'d', 'i', 'u', 'x', 'X', 'o', 'b', 'c', 's', 'p', 'f', 'F', 'e', 'E', 'g', 'G'}
    ensures Format(['%', c] + g, [x] + y, floats) == Format(['%', c], [x], floats) + Format(g, y, floats)
  {
    BareComplete(['%', c], c, [x]);
    FormatsJoin(['%', c], [x], g, y, floats);
  }

  /** Behind '%', any other character, '%' itself included, prints as it is and takes no argument. */
  lemma OtherThenRest(c: char, g: string, y: seq<Arg>, floats: FloatText)
    requires c !in {'d', 'i', 'u', 'x', 'X', 'o', 'b', 'c', 's', 'p', 'f', 'F', 'e', 'E', 'g', 'G'} && !InDirective(c)
    ensures Format(['%', c] + g, y, floats) == [c] + Format(g, y, floats)
  {
    BareComplete(['%', c], c, []);
    FormatsJoin(['%', c], [], g, y, floats);
    BareDirective(['%', c], c, [], floats);
    assert [] + y == y;
  }

  lemma {:induction false} TextComplete(text: string, i: nat)
    requires i <= |text| && '%' !in text && '\0' !in text
    ensures Complete(text, i, [], 0)
    decreases |text| - i
  {
    if i < |text| { TextComplete(text, i + 1); }
  }

  /** Text in front of a format prints as it is and takes no argument. */
  lemma TextThenRest(text: string, g: string, y: seq<Arg>, floats: FloatText)
    requires '%' !in text && '\0' !in text
    ensures Format(text + g, y, floats) == text + Format(g, y, floats)
  {
    TextComplete(text, 0);
    FormatsJoin(text, [], g, y, floats);
    assert [] + y == y && text[0..] == text;
    LiteralFormat(text, 0, [], 0, Conversion(floats));
    CStringWhole(text);
  }

  lemma {:induction false} CStringWhole(s: string)
    requires '\0' !in s
    ensures CString(s) == s
    decreases |s|
  {
    if s != [] { CStringWhole(s[1..]); }
  }

  lemma BareStringText(s: string, args: seq<Arg>, floats: FloatText)
    requires '\0' !in s && args == [StrArg(s)]
    ensures DirectiveText('s', BARE, args, floats) == s
  {
    CStringWhole(s);
    assert Repeat(' ', 0) + s == s;
  }

  /** %s in front of more prints the string. */
  lemma StringThenRest(s: string, g: string, y: seq<Arg>, floats: FloatText)
    requires '\0' !in s
    ensures Format(['%', 's'] + g, [StrArg(s)] + y, floats) == s + Format(g, y, floats)
  {
    SpecifierThenRest('s', StrArg(s), g, y, floats);
    BareDirective(['%', 's'], 's', [StrArg(s)], floats);
    BareStringText(s, [StrArg(s)], floats);
  }

  lemma BareCharText(v: int, args: seq<Arg>, floats: FloatText)
    requires 0 <= v < 256 && args == [IntArg(v)]
    ensures DirectiveText('c', BARE, args, floats) == [v as char]
  {
    assert Repeat(' ', 0) + [v as char] == [v as char];
  }

  /** %c in front of more prints the character with that code. */
  lemma CharThenRest(v: int, g: string, y: seq<Arg>, floats: FloatText)
    requires 0 <= v < 256
    ensures Format(['%', 'c'] + g, [IntArg(v)] + y, floats) == [v as char] + Format(g, y, floats)
  {
    SpecifierThenRest('c', IntArg(v), g, y, floats);
    BareDirective(['%', 'c'], 'c', [IntArg(v)], floats);
    BareCharText(v, [IntArg(v)], floats);
  }
}
