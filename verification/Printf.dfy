/**
  The printf engine of kernel/src/lib/sprintf.c over its three sinks, and
  vasprintf of kernel/src/lib/asprintf.c.

  Every character goes through `Put`, which hands it to the sink with the
  running index. `trace` is what has been handed over so far, whatever the
  sink did with it.
 */
module Printf {
  import opened NumberText
  import opened PrintfText
  import opened NtoaBuffer

  /** _out_buffer, _out_null and _out_fct. */
  datatype Sink = BufferSink | NullSink | CallSink

  function Min(a: nat, b: nat): nat {
    if a < b then a else b
  }

  function WithoutNul(s: string): string {
    if s == [] then []
    else WithoutNul(s[..|s| - 1]) + if s[|s| - 1] == '\0' then [] else [s[|s| - 1]]
  }

  /** The buffer of length maxlen or more after `text` and the terminator went in. */
  ghost predicate HoldsPrefix(after: seq<char>, before: seq<char>, text: string, maxlen: nat) {
    && |after| == |before|
    && forall k | 0 <= k < |after| ::
         after[k] == if maxlen == 0 || k > Min(|text|, maxlen - 1) then before[k]
                     else if k == Min(|text|, maxlen - 1) then '\0'
                     else text[k]
  }

  /** _strnlen_s; without a precision the limit is the largest size_t, taken as none. */
  method Strnlen(s: string, limited: bool, limit: nat) returns (n: nat)
    ensures n == if limited then Min(|CString(s)|, limit) else |CString(s)|
  {
    CStringEnds(s);
    n := 0;
    while At(s, n) != '\0' && (!limited || n < limit)
      invariant n <= |CString(s)| && (limited ==> n <= limit)
      decreases |s| - n
    {
      n := n + 1;
    }
  }

  /** The flag, width, precision and length fields behind the '%' at position i. */
  method ReadDirective(fmt: string, i: nat, args: seq<Arg>, a: nat) returns (d: Directive)
    ensures d == Parse(fmt, i, args, a)
  {
    var f, n := ReadFlags(fmt, i + 1);
    d := ReadWidth(fmt, Directive(f, 0, 0, n, a), args);
    d := ReadPrecision(fmt, d, args);
    d := ReadLength(fmt, d);
  }

  /** _atoi of sprintf.c: an unsigned int, so modulo 2^32. */
  method ReadNumber(fmt: string, i: nat) returns (v: nat, n: nat)
    ensures (v, n) == ParseNumber(fmt, i, 0)
  {
    v, n := 0, i;
    while IsDigit(At(fmt, n))
      invariant ParseNumber(fmt, n, v) == ParseNumber(fmt, i, 0)
      decreases |fmt| - n
    {
      v := (v * 10 + (fmt[n] as int - '0' as int)) % 0x1_0000_0000;
      n := n + 1;
    }
  }

  method ReadWidth(fmt: string, d0: Directive, args: seq<Arg>) returns (d: Directive)
    ensures d == ParseWidth(fmt, d0, args)
  {
    d := d0;
    if IsDigit(At(fmt, d.next)) {
      var w, n := ReadNumber(fmt, d.next);
      d := d.(width := w, next := n);
    } else if At(fmt, d.next) == '*' {
      var w := Int32(IntAt(args, d.args));
      if w < 0 {
        d := d.(flags := d.flags.(left := true), width := -w);
      } else {
        d := d.(width := w);
      }
      d := d.(next := d.next + 1, args := d.args + 1);
    }
  }

  method ReadPrecision(fmt: string, d0: Directive, args: seq<Arg>) returns (d: Directive)
    ensures d == ParsePrecision(fmt, d0, args)
  {
    d := d0;
    if At(fmt, d.next) == '.' {
      d := d.(flags := d.flags.(precise := true), next := d.next + 1);
      if IsDigit(At(fmt, d.next)) {
        var p, n := ReadNumber(fmt, d.next);
        d := d.(prec := p, next := n);
      } else if At(fmt, d.next) == '*' {
        var p := Int32(IntAt(args, d.args));
        d := d.(prec := if p > 0 then p else 0, next := d.next + 1, args := d.args + 1);
      }
    }
  }

  method ReadLength(fmt: string, d0: Directive) returns (d: Directive)
    ensures d == ParseLength(fmt, d0)
  {
    d := d0;
    var c := At(fmt, d.next);
    if c == 'l' {
      d := d.(flags := d.flags.(longLen := true), next := d.next + 1);
      if At(fmt, d.next) == 'l' {
        d := d.(flags := d.flags.(longLong := true), next := d.next + 1);
      }
    } else if c == 'h' {
      d := d.(flags := d.flags.(shortLen := true), next := d.next + 1);
      if At(fmt, d.next) == 'h' {
        d := d.(flags := d.flags.(charLen := true), next := d.next + 1);
      }
    } else if c == 't' || c == 'z' {
      d := d.(flags := d.flags.(longLen := true), next := d.next + 1);
    } else if c == 'j' {
      d := d.(flags := d.flags.(longLong := true), next := d.next + 1);
    }
  }

  /** The do-while loop over the flag characters. */
  method ReadFlags(fmt: string, i: nat) returns (f: Flags, n: nat)
    ensures (f, n) == ParseFlags(fmt, i, NO_FLAGS)
  {
    f, n := NO_FLAGS, i;
    while IsFlag(At(fmt, n))
      invariant ParseFlags(fmt, n, f) == ParseFlags(fmt, i, NO_FLAGS)
      decreases |fmt| - n
    {
      f := FlagOf(f, At(fmt, n));
      n := n + 1;
    }
  }

  lemma RenderLiteral(pre: string, fmt: string, i: nat, args: seq<Arg>, a: nat, conv: Conversions)
    requires At(fmt, i) != '\0' && At(fmt, i) != '%'
    ensures pre + Render(fmt, i, args, a, conv) == (pre + [fmt[i]]) + Render(fmt, i + 1, args, a, conv)
  {
    assert Render(fmt, i, args, a, conv) == [fmt[i]] + Render(fmt, i + 1, args, a, conv);
  }

  lemma RenderSpecifier(pre: string, fmt: string, d: Directive, args: seq<Arg>, conv: Conversions, c: char)
    requires c == At(fmt, d.next)
    ensures pre + RenderFrom(fmt, d, args, conv)
            == (pre + conv(c, d, args)) + Render(fmt, d.next + 1, args, d.args + ArgsTaken(c), conv)
  {
  }

  /** conv is the conversion of the switch; the trigger keeps it folded elsewhere. */
  ghost predicate Converts(conv: Conversions, floats: FloatText) {
    forall c, d, args {:trigger DirectiveText(c, d, args, floats)} ::
      conv(c, d, args) == DirectiveText(c, d, args, floats)
  }

  class Output {
    const sink: Sink
    const buffer: array<char>
    const maxlen: nat
    var idx: nat
    /** What the callback received. */
    var received: string
    /** A character was stored past the end of the buffer. */
    var overrun: bool
    ghost var trace: string
    ghost const before: seq<char>

    ghost predicate Valid()
      reads this, buffer
    {
      && idx == |trace| && |before| == buffer.Length
      && received == (if sink.CallSink? then WithoutNul(trace) else [])
      && overrun == (sink.BufferSink? && Min(idx, maxlen) > buffer.Length)
      && forall k | 0 <= k < buffer.Length ::
           buffer[k] == if sink.BufferSink? && k < idx && k < maxlen then trace[k] else before[k]
    }

    constructor (s: Sink, buf: array<char>, max: nat)
      ensures Valid() && trace == [] && idx == 0
      ensures sink == s && buffer == buf && maxlen == max && before == buf[..]
    {
      sink, buffer, maxlen := s, buf, max;
      idx, received, overrun, trace, before := 0, [], false, [], buf[..];
    }

    /** out(c, buffer, at, maxlen) */
    method Emit(c: char, at: nat)
      modifies this`received, this`overrun, buffer
      ensures received == old(received) + if sink.CallSink? && c != '\0' then [c] else []
      ensures overrun == (old(overrun) || (sink.BufferSink? && buffer.Length <= at < maxlen))
      ensures forall k | 0 <= k < buffer.Length ::
                buffer[k] == if sink.BufferSink? && k == at && at < maxlen then c else old(buffer[k])
    {
      match sink
      case BufferSink =>
        if at < maxlen {
          if at < buffer.Length {
            buffer[at] := c;
          } else {
            overrun := true;
          }
        }
      case NullSink =>
      case CallSink =>
        if c != '\0' {
          received := received + [c];
        }
    }

    /** out(c, buffer, idx++, maxlen) */
    method Put(c: char)
      requires Valid()
      modifies this`idx, this`received, this`overrun, this`trace, buffer
      ensures Valid() && trace == old(trace) + [c]
    {
      Emit(c, idx);
      idx := idx + 1;
      trace := trace + [c];
      assert trace[..|trace| - 1] == old(trace);
    }

    /** The padding loops. */
    method PutMany(c: char, n: nat)
      requires Valid()
      modifies this`idx, this`received, this`overrun, this`trace, buffer
      ensures Valid() && trace == old(trace) + Repeat(c, n)
    {
      var k := 0;
      while k < n
        invariant k <= n
        invariant Valid() && trace == old(trace) + Repeat(c, k)
      {
        Put(c);
        k := k + 1;
      }
    }

    /** Characters in order, as a floating-point conversion emits them. */
    method PutAll(s: string)
      requires Valid()
      modifies this`idx, this`received, this`overrun, this`trace, buffer
      ensures Valid() && trace == old(trace) + s
    {
      var k := 0;
      while k < |s|
        invariant k <= |s|
        invariant Valid() && trace == old(trace) + s[..k]
      {
        Put(s[k]);
        k := k + 1;
      }
      assert s[..k] == s;
    }

    /** The reversing loop of _out_rev. */
    method PutReversed(buf: string)
      requires Valid()
      modifies this`idx, this`received, this`overrun, this`trace, buffer
      ensures Valid() && trace == old(trace) + Reversed(buf)
    {
      ghost var r := Reversed(buf);
      var len: nat := |buf|;
      while len > 0
        invariant len <= |buf|
        invariant Valid() && trace == old(trace) + r[..|buf| - len]
      {
        len := len - 1;
        ReversedAt(buf, |buf| - 1 - len);
        Put(buf[len]);
      }
      assert r[..|buf|] == r;
    }

    /** _out_rev */
    method OutRev(buf: array<char>, count: nat, width: nat, f: Flags)
      requires Valid() && count <= buf.Length && buf != buffer
      modifies this`idx, this`received, this`overrun, this`trace, buffer
      ensures Valid() && trace == old(trace) + RevText(buf[..count], width, f)
    {
      var start := idx;
      if !f.left && !f.zeropad {
        PutMany(' ', Missing(width, count));
      }
      PutReversed(buf[..count]);
      if f.left {
        PutMany(' ', Missing(width, idx - start));
      }
    }

    /** _ntoa_format */
    method NtoaFormat(buf: array<char>, count: nat, negative: bool, base: nat, prec: nat, width0: nat, f: Flags)
      requires Valid() && buf != buffer && buf.Length == 32 && count <= 32
      modifies this`idx, this`received, this`overrun, this`trace, buffer, buf
      ensures Valid() && trace == old(trace) + NtoaText(old(buf[..count]), negative, base, prec, width0, f)
    {
      var width := SignedWidth(width0, negative, f);
      var len := FillZeros(buf, count, prec, width, f);
      len := AddPrefix(buf, len, base, prec, width, f);
      len := AddSign(buf, len, negative, f);
      OutRev(buf, len, width, f);
    }

    /** _ntoa_long and _ntoa_long_long */
    method NtoaLong(v: nat, negative: bool, base: nat, prec: nat, width: nat, f: Flags)
      requires Valid()
      modifies this`idx, this`received, this`overrun, this`trace, buffer
      ensures Valid() && trace == old(trace) + ConvertedText(v, negative, base, prec, width, f)
    {
      var buf := new char[32];
      var g := if v == 0 then f.(hash := false) else f;
      var len := ConvertDigits(buf, v, base, g);
      NtoaFormat(buf, len, negative, base, prec, width, g);
    }

    /** The integer specifiers. */
    method PutInteger(c: char, d: Directive, v: int)
      requires Valid()
      modifies this`idx, this`received, this`overrun, this`trace, buffer
      ensures Valid() && trace == old(trace) + IntText(c, d, v)
    {
      var f := IntFlags(d.flags, c);
      var (m, negative) := IntValue(c, f, v);
      NtoaLong(m, negative, BaseOf(c), d.prec, d.width, f);
    }

    /** The 'c' specifier; l++ < width counts from 1. */
    method PutCharacter(d: Directive, v: int)
      requires Valid()
      modifies this`idx, this`received, this`overrun, this`trace, buffer
      ensures Valid() && trace == old(trace) + Padded([ByteChar(v)], d.width, d.flags.left)
    {
      if !d.flags.left {
        PutMany(' ', Missing(d.width, 1));
      }
      Put(ByteChar(v));
      if d.flags.left {
        PutMany(' ', Missing(d.width, 1));
      }
    }

    /** The copying loop of the 's' specifier. */
    method PutPrefix(s: string, precise: bool, prec: nat)
      requires Valid()
      modifies this`idx, this`received, this`overrun, this`trace, buffer
      ensures Valid() && trace == old(trace) + Shown(s, precise, prec)
    {
      ghost var t := CString(s);
      CStringEnds(s);
      var p := 0;
      while At(s, p) != '\0' && (!precise || p < prec)
        invariant p <= |t| && (precise ==> p <= prec)
        invariant Valid() && trace == old(trace) + t[..p]
        decreases |s| - p
      {
        Put(s[p]);
        p := p + 1;
      }
      assert t[..p] == Shown(s, precise, prec);
    }

    /** The string and its padding; l is the number of characters shown. */
    method PutField(s: string, precise: bool, prec: nat, l: nat, width: nat, left: bool)
      requires Valid() && l == |Shown(s, precise, prec)|
      modifies this`idx, this`received, this`overrun, this`trace, buffer
      ensures Valid() && trace == old(trace) + Padded(Shown(s, precise, prec), width, left)
    {
      ghost var t, shown := trace, Shown(s, precise, prec);
      if !left {
        PutMany(' ', Missing(width, l));
        PutPrefix(s, precise, prec);
        assert trace == t + (Repeat(' ', Missing(width, l)) + shown);
      } else {
        PutPrefix(s, precise, prec);
        PutMany(' ', Missing(width, l));
        assert trace == t + (shown + Repeat(' ', Missing(width, l)));
      }
    }

    /** The 's' specifier. */
    method PutString(d: Directive, s: string)
      requires Valid() && (d.prec != 0 ==> d.flags.precise)
      modifies this`idx, this`received, this`overrun, this`trace, buffer
      ensures Valid() && trace == old(trace) + StringText(d, s)
    {
      var l := Strnlen(s, d.prec != 0, d.prec);
      if d.flags.precise {
        l := if l < d.prec then l else d.prec;
      }
      PutField(s, d.flags.precise, d.prec, l, d.width, d.flags.left);
    }

    /** The specifier switch of _vsnprintf. */
    method PutDirective(c: char, d: Directive, args: seq<Arg>, floats: FloatText, ghost conv: Conversions)
      requires Valid() && (d.prec != 0 ==> d.flags.precise) && Converts(conv, floats)
      modifies this`idx, this`received, this`overrun, this`trace, buffer
      ensures Valid() && trace == old(trace) + conv(c, d, args)
    {
      assert conv(c, d, args) == DirectiveText(c, d, args, floats);
      if IsIntSpec(c) {
        PutInteger(c, d, IntAt(args, d.args));
      } else if IsFloatSpec(c) {
        PutAll(floats(c, d.flags, d.width, d.prec, ArgAt(args, d.args)));
      } else if c == 'c' {
        PutCharacter(d, IntAt(args, d.args));
      } else if c == 's' {
        PutString(d, StrAt(args, d.args));
      } else if c == 'p' {
        var f := d.flags.(zeropad := true, upper := true);
        NtoaLong(Unsigned(IntAt(args, d.args), 32), false, 16, d.prec, 8, f);
      } else {
        Put(c);
      }
    }

    /** The body of the format loop at a '%'. */
    method PutConversion(fmt: string, i: nat, args: seq<Arg>, a: nat, floats: FloatText, ghost conv: Conversions)
      returns (i': nat, a': nat)
      requires Valid() && At(fmt, i) == '%' && Converts(conv, floats)
      modifies this`idx, this`received, this`overrun, this`trace, buffer
      ensures Valid() && i' > i
      ensures old(trace) + Render(fmt, i, args, a, conv) == trace + Render(fmt, i', args, a', conv)
    {
      var d := ReadDirective(fmt, i, args, a);
      var c := At(fmt, d.next);
      i', a' := d.next + 1, d.args + ArgsTaken(c);
      RenderSpecifier(trace, fmt, d, args, conv, c);
      PutDirective(c, d, args, floats, conv);
    }

    /** The format loop of _vsnprintf. */
    method PutFormat(fmt: string, args: seq<Arg>, floats: FloatText, ghost conv: Conversions)
      requires Valid() && trace == [] && Converts(conv, floats)
      modifies this`idx, this`received, this`overrun, this`trace, buffer
      ensures Valid() && trace == Render(fmt, 0, args, 0, conv)
    {
      ghost var all := Render(fmt, 0, args, 0, conv);
      var i: nat, a: nat := 0, 0;
      while At(fmt, i) != '\0'
        invariant Valid() && all == trace + Render(fmt, i, args, a, conv)
        decreases |fmt| - i
      {
        if At(fmt, i) != '%' {
          RenderLiteral(trace, fmt, i, args, a, conv);
          Put(fmt[i]);
          i := i + 1;
        } else {
          i, a := PutConversion(fmt, i, args, a, floats, conv);
        }
      }
    }

    /**
      _vsnprintf: the characters and the result depend on neither sink nor
      maxlen. The buffer sink ends up with the longest prefix that leaves room
      for the terminator, and overruns the buffer exactly when maxlen lets it.
     */
    method Vsnprintf(fmt: string, args: seq<Arg>, floats: FloatText) returns (n: nat)
      requires Valid() && trace == []
      modifies this, buffer
      ensures trace == Format(fmt, args, floats) && n == |trace|
      ensures received == if sink.CallSink? then WithoutNul(trace) else []
      ensures overrun <==> sink.BufferSink? && Min(n + 1, maxlen) > buffer.Length
      ensures if sink.BufferSink? then HoldsPrefix(buffer[..], before, trace, maxlen) else buffer[..] == before
    {
      PutFormat(fmt, args, floats, Conversion(floats));
      n := idx;
      if maxlen > 0 {
        Emit('\0', if n < maxlen then n else maxlen - 1);
      } else {
        // maxlen - 1 wraps to the largest size_t, which no index stays below.
        Emit('\0', if n < maxlen then n else 0xFFFF_FFFF);
      }
    }
  }

  /** vasprintf: measure with a null sink, allocate, and print into the new buffer. */
  method Vasprintf(fmt: string, args: seq<Arg>, floats: FloatText) returns (n: nat, str: array<char>)
    ensures n == |Format(fmt, args, floats)|
    ensures fresh(str) && str[..] == Format(fmt, args, floats) + ['\0']
  {
    var none := new char[0];
    var measure := new Output(NullSink, none, 0);
    n := measure.Vsnprintf(fmt, args, floats);
    str := new char[n + 1];
    var out := new Output(BufferSink, str, n + 1);
    var m := out.Vsnprintf(fmt, args, floats);
  }
}
