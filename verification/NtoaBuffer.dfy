/**
  The 32-character conversion buffer of _ntoa_long and _ntoa_format in
  kernel/src/lib/sprintf.c: every step fills a prefix of the array, and its
  specification is the function on sequences of the same name.
 */
module NtoaBuffer {
  import opened NumberText
  import opened PrintfText

  /** while ((len < n) && (len < PRINTF_NTOA_BUFFER_SIZE)) buf[len++] = '0'; */
  method ZeroFill(buf: array<char>, count: nat, n: nat) returns (len: nat)
    requires buf.Length == 32 && count <= 32
    modifies buf
    ensures len <= 32 && buf[..len] == ZeroFilled(old(buf[..count]), n)
  {
    len := count;
    while len < n && len < 32
      invariant count <= len <= 32 && (len > count ==> len <= n)
      invariant buf[..len] == old(buf[..count]) + Repeat('0', len - count)
    {
      buf[len] := '0';
      len := len + 1;
    }
  }

  method FillZeros(buf: array<char>, count: nat, prec: nat, width: nat, f: Flags) returns (len: nat)
    requires buf.Length == 32 && count <= 32
    modifies buf
    ensures len <= 32 && buf[..len] == WithZeros(old(buf[..count]), prec, width, f)
  {
    len := count;
    if !f.left {
      len := ZeroFill(buf, len, prec);
      if f.zeropad {
        len := ZeroFill(buf, len, width);
      }
    }
  }

  method PushChar(buf: array<char>, count: nat, c: char) returns (len: nat)
    requires buf.Length == 32 && count <= 32
    modifies buf
    ensures len <= 32 && buf[..len] == Push(old(buf[..count]), c)
  {
    len := count;
    if len < 32 {
      buf[len] := c;
      len := len + 1;
    }
  }

  /** The '#' part of _ntoa_format. */
  method AddPrefix(buf: array<char>, count: nat, base: nat, prec: nat, width: nat, f: Flags) returns (len: nat)
    requires buf.Length == 32 && count <= 32
    modifies buf
    ensures len <= 32 && buf[..len] == WithHash(old(buf[..count]), base, prec, width, f)
  {
    len := count;
    if f.hash {
      if !f.precise && len > 0 && (len == prec || len == width) {
        len := len - 1;
        if len > 0 && base == 16 {
          len := len - 1;
        }
      }
      assert buf[..len] == old(buf[..count])[..len];
      if base == 16 {
        len := PushChar(buf, len, if f.upper then 'X' else 'x');
      } else if base == 2 {
        len := PushChar(buf, len, 'b');
      }
      len := PushChar(buf, len, '0');
    }
  }

  method AddSign(buf: array<char>, count: nat, negative: bool, f: Flags) returns (len: nat)
    requires buf.Length == 32 && count <= 32
    modifies buf
    ensures len <= 32 && buf[..len] == WithSign(old(buf[..count]), negative, f)
  {
    len := count;
    if negative {
      len := PushChar(buf, len, '-');
    } else if f.plus {
      len := PushChar(buf, len, '+');
    } else if f.space {
      len := PushChar(buf, len, ' ');
    }
  }

  /** Stores the lowest digit; `rest` are the digits still to come. */
  method PushDigit(buf: array<char>, len: nat, v: nat, base: nat, upper: bool) returns (ghost rest: string)
    requires len < buf.Length
    modifies buf
    ensures rest == if Quot(v, base) != 0 && len + 1 < buf.Length
                    then Digits(Quot(v, base), base, upper, buf.Length - len - 1) else []
    ensures buf[..len + 1] + rest == old(buf[..len]) + Digits(v, base, upper, buf.Length - len)
  {
    var digit := DigitChar(Rem(v, base), upper);
    ghost var done := buf[..len];
    rest := TakeDigit(done, v, base, upper, buf.Length - len);
    buf[len] := digit;
    assert buf[..len + 1] == done + [digit];
  }

  /** The digit loop of _ntoa_long and _ntoa_long_long. */
  method FillDigits(buf: array<char>, v: nat, base: nat, upper: bool) returns (len: nat)
    requires buf.Length >= 1
    modifies buf
    ensures len <= buf.Length && buf[..len] == Digits(v, base, upper, buf.Length)
  {
    ghost var all, rest := Digits(v, base, upper, buf.Length), Digits(v, base, upper, buf.Length);
    var value: nat := v;
    len := 0;
    var more := true;
    while more
      invariant len <= buf.Length && (more ==> len < buf.Length)
      invariant rest == if more then Digits(value, base, upper, buf.Length - len) else []
      invariant all == buf[..len] + rest
      decreases buf.Length - len, more
    {
      rest := PushDigit(buf, len, value, base, upper);
      len := len + 1;
      value := Quot(value, base);
      more := value != 0 && len < buf.Length;
    }
  }

  lemma TakeDigit(done: string, v: nat, base: nat, upper: bool, room: nat) returns (rest: string)
    requires room >= 1
    ensures rest == if Quot(v, base) != 0 && room > 1 then Digits(Quot(v, base), base, upper, room - 1) else []
    ensures done + Digits(v, base, upper, room) == (done + [DigitChar(Rem(v, base), upper)]) + rest
  {
    var q, d := Quot(v, base), DigitChar(Rem(v, base), upper);
    rest := if q != 0 && room > 1 then Digits(q, base, upper, room - 1) else [];
    assert Digits(v, base, upper, room) == [d] + rest;
    Regroup(done, d, rest);
  }

  lemma Regroup(done: string, d: char, rest: string)
    ensures done + ([d] + rest) == (done + [d]) + rest
  {
  }

  /** The start of _ntoa_long: an explicit precision of a zero value prints no digit. */
  method ConvertDigits(buf: array<char>, v: nat, base: nat, f: Flags) returns (len: nat)
    requires buf.Length >= 1
    modifies buf
    ensures len <= buf.Length
    ensures buf[..len] == if !f.precise || v != 0 then Digits(v, base, f.upper, buf.Length) else []
  {
    len := 0;
    if !f.precise || v != 0 {
      len := FillDigits(buf, v, base, f.upper);
    }
  }
}
