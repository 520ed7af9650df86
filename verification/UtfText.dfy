/**
  The conversion of kernel/src/lib/utf_conversion.c from UTF-16 to UTF-8,
  against a strict UTF-8 decoder (RFC 3629, section 3) and the surrogate
  pairs of UTF-16 (RFC 2781, section 2).
 */
module UtfText {
  datatype Option<T> = None | Some(value: T)

  // ------------------------------------------------------- what the code computes

  predicate Surrogate(w: nat) { 0xD800 <= w <= 0xDFFF }

  /** The bytes written for a code point; the masked bits are disjoint from the marks, so or is addition. */
  function Utf8(c: nat): seq<nat> {
    if c < 0x80 then [c]
    else if c < 0x800 then [0xC0 + c / 64 % 32, 0x80 + c % 64]
    else if c < 0x10000 then [0xE0 + c / 4096 % 16, 0x80 + c / 64 % 64, 0x80 + c % 64]
    else [0xF0 + c / 262144 % 8, 0x80 + c / 4096 % 64, 0x80 + c / 64 % 64, 0x80 + c % 64]
  }

  function Utf8All(cs: seq<nat>): seq<nat> {
    if cs == [] then [] else Utf8(cs[0]) + Utf8All(cs[1..])
  }

  /** A UTF-16 code unit. */
  type Unit = w: int | 0 <= w < 65536

  /** Any surrogate takes the next unit as its low half, whatever that is; behind the end lies `beyond`. */
  function Points(u: seq<Unit>, beyond: Unit): seq<nat>
    decreases |u|
  {
    if u == [] then []
    else if !Surrogate(u[0]) then [u[0]] + Points(u[1..], beyond)
    else if |u| == 1 then [Paired(u[0], beyond)]
    else [Paired(u[0], u[1])] + Points(u[2..], beyond)
  }

  function Paired(high: Unit, low: Unit): (c: nat)
    requires Surrogate(high)
  {
    0x10000 + (high - 0xD800) * 1024 + (low - 0xDC00)
  }

  function Converted(u: seq<Unit>, beyond: Unit): seq<nat> { Utf8All(Points(u, beyond)) }

  lemma Utf8AllCons(c: nat, cs: seq<nat>)
    ensures Utf8All([c] + cs) == Utf8(c) + Utf8All(cs)
  {
    assert ([c] + cs)[1..] == cs;
  }

  lemma {:induction false} Utf8AllAppend(cs: seq<nat>, c: nat)
    ensures Utf8All(cs + [c]) == Utf8All(cs) + Utf8(c)
    decreases |cs|
  {
    if cs == [] {
      assert [c][1..] == [];
    } else {
      assert (cs + [c])[1..] == cs[1..] + [c];
      Utf8AllAppend(cs[1..], c);
    }
  }

  lemma {:induction false} Utf8AllConcat(cs: seq<nat>, ds: seq<nat>)
    ensures Utf8All(cs + ds) == Utf8All(cs) + Utf8All(ds)
    decreases |cs|
  {
    if cs == [] {
      assert cs + ds == ds;
    } else {
      assert (cs + ds)[1..] == cs[1..] + ds;
      Utf8AllConcat(cs[1..], ds);
    }
  }

  // ------------------------------------------------------- the standards

  /** A Unicode scalar value. */
  predicate Scalar(c: nat) { c <= 0x10FFFF && !Surrogate(c) }

  /** The UTF-16 of a scalar value. */
  function Utf16(c: nat): seq<Unit>
    requires Scalar(c)
  {
    if c < 0x10000 then [c] else [0xD800 + (c - 0x10000) / 1024, 0xDC00 + (c - 0x10000) % 1024]
  }

  function Utf16All(cs: seq<nat>): seq<Unit>
    requires forall k | 0 <= k < |cs| :: Scalar(cs[k])
  {
    if cs == [] then [] else Utf16(cs[0]) + Utf16All(cs[1..])
  }

  lemma Utf16AllCons(c: nat, cs: seq<nat>)
    requires Scalar(c) && forall k | 0 <= k < |cs| :: Scalar(cs[k])
    ensures forall k | 0 <= k < |[c] + cs| :: Scalar(([c] + cs)[k])
    ensures Utf16All([c] + cs) == Utf16(c) + Utf16All(cs)
  {
    assert ([c] + cs)[1..] == cs;
  }

  /** Every high surrogate is followed by a low one, and there are no other low ones. */
  predicate WellFormed(u: seq<Unit>)
    decreases |u|
  {
    u == [] ||
    (if !Surrogate(u[0]) then WellFormed(u[1..])
     else u[0] < 0xDC00 && |u| > 1 && 0xDC00 <= u[1] <= 0xDFFF && WellFormed(u[2..]))
  }

  predicate Continuation(b: nat) { 0x80 <= b < 0xC0 }

  /** One character off the front, and how many bytes it took. */
  function DecodeOne(b: seq<nat>): (r: Option<(nat, nat)>)
    ensures r.Some? ==> 0 < r.value.1 <= |b| && Scalar(r.value.0)
  {
    if b == [] then None
    else if b[0] < 0x80 then Some((b[0], 1))
    else if 0xC2 <= b[0] < 0xE0 && |b| > 1 && Continuation(b[1]) then
      Some(((b[0] - 0xC0) * 64 + (b[1] - 0x80), 2))
    else if 0xE0 <= b[0] < 0xF0 && |b| > 2 && Continuation(b[1]) && Continuation(b[2]) then
      var c := (b[0] - 0xE0) * 4096 + (b[1] - 0x80) * 64 + (b[2] - 0x80);
      if c < 0x800 || Surrogate(c) then None else Some((c, 3))
    else if 0xF0 <= b[0] < 0xF8 && |b| > 3 && Continuation(b[1]) && Continuation(b[2]) && Continuation(b[3]) then
      var c := (b[0] - 0xF0) * 262144 + (b[1] - 0x80) * 4096 + (b[2] - 0x80) * 64 + (b[3] - 0x80);
      if c < 0x10000 || c > 0x10FFFF then None else Some((c, 4))
    else None
  }

  function Decode(b: seq<nat>): Option<seq<nat>>
    decreases |b|
  {
    if b == [] then Some([])
    else
      match DecodeOne(b)
      case None => None
      case Some((c, n)) =>
        match Decode(b[n..])
        case None => None
        case Some(cs) => Some([c] + cs)
  }

  // ------------------------------------------------------- round trips

  lemma Digits2(c: nat)
    requires c < 0x800
    ensures c == c / 64 % 32 * 64 + c % 64
  {
  }

  lemma Digits3(c: nat)
    requires c < 0x10000
    ensures c == c / 4096 % 16 * 4096 + c / 64 % 64 * 64 + c % 64
  {
    var d := c / 64;
    assert c == 64 * d + c % 64 && d == 64 * (d / 64) + d % 64 && d / 64 == c / 4096;
  }

  lemma Digits4(c: nat)
    requires c < 0x20_0000
    ensures c == c / 262144 % 8 * 262144 + c / 4096 % 64 * 4096 + c / 64 % 64 * 64 + c % 64
  {
    var d, e := c / 64, c / 4096;
    assert c == 64 * d + c % 64;
    assert d == 64 * e + d % 64;
    assert e == 64 * (e / 64) + e % 64 && e / 64 == c / 262144;
  }

  lemma DecodeOneOfUtf8(c: nat, rest: seq<nat>)
    requires Scalar(c)
    ensures DecodeOne(Utf8(c) + rest) == Some((c, |Utf8(c)|))
  {
    if c < 0x80 {
    } else if c < 0x800 {
      Digits2(c);
    } else if c < 0x10000 {
      Digits3(c);
    } else {
      Digits4(c);
    }
  }

  /** Decoding the UTF-8 of scalar values gives them back. */
  lemma {:induction false} DecodeUtf8All(cs: seq<nat>)
    requires forall k | 0 <= k < |cs| :: Scalar(cs[k])
    ensures Decode(Utf8All(cs)) == Some(cs)
    decreases |cs|
  {
    if cs != [] {
      var rest := Utf8All(cs[1..]);
      DecodeOneOfUtf8(cs[0], rest);
      DecodeUtf8All(cs[1..]);
      var all := Utf8All(cs);
      assert all == Utf8(cs[0]) + rest;
      assert all[|Utf8(cs[0])|..] == rest;
      assert cs == [cs[0]] + cs[1..];
    }
  }

  lemma PairOf(c: nat)
    requires 0x10000 <= c <= 0x10FFFF
    ensures Surrogate(Utf16(c)[0]) && Paired(Utf16(c)[0], Utf16(c)[1]) == c
  {
  }

  lemma {:induction false} PointsOfUtf16(cs: seq<nat>, beyond: Unit)
    requires forall k | 0 <= k < |cs| :: Scalar(cs[k])
    ensures Points(Utf16All(cs), beyond) == cs
    decreases |cs|
  {
    if cs != [] {
      var c, u, rest := cs[0], Utf16All(cs), Utf16All(cs[1..]);
      PointsOfUtf16(cs[1..], beyond);
      if c < 0x10000 {
        assert u[1..] == rest;
      } else {
        PairOf(c);
        assert u[2..] == rest;
      }
    }
  }

  /** Well-formed UTF-16 is the UTF-16 of its scalar values. */
  lemma {:induction false} WellFormedIsUtf16(u: seq<Unit>, beyond: Unit)
    requires WellFormed(u)
    ensures var cs := Points(u, beyond);
            (forall k | 0 <= k < |cs| :: Scalar(cs[k])) && Utf16All(cs) == u
    decreases |u|
  {
    if u != [] {
      if !Surrogate(u[0]) {
        WellFormedIsUtf16(u[1..], beyond);
        Utf16AllCons(u[0], Points(u[1..], beyond));
        assert u == [u[0]] + u[1..];
      } else {
        WellFormedIsUtf16(u[2..], beyond);
        UnitsOfPair(u[0], u[1]);
        Utf16AllCons(Paired(u[0], u[1]), Points(u[2..], beyond));
        assert u == [u[0], u[1]] + u[2..];
      }
    }
  }

  lemma UnitsOfPair(high: Unit, low: Unit)
    requires 0xD800 <= high < 0xDC00 && 0xDC00 <= low <= 0xDFFF
    ensures Scalar(Paired(high, low)) && Utf16(Paired(high, low)) == [high, low]
  {
  }

  /** The UTF-16 of scalar values is well-formed. */
  lemma {:induction false} Utf16IsWellFormed(cs: seq<nat>)
    requires forall k | 0 <= k < |cs| :: Scalar(cs[k])
    ensures WellFormed(Utf16All(cs))
    decreases |cs|
  {
    if cs != [] {
      var c, u, rest := cs[0], Utf16All(cs), Utf16All(cs[1..]);
      Utf16IsWellFormed(cs[1..]);
      if c < 0x10000 {
        assert u[1..] == rest;
      } else {
        PairOf(c);
        assert u[2..] == rest;
      }
    }
  }

  /** The code points read from u are scalar values that make u up. */
  predicate ReadsWell(u: seq<Unit>, beyond: Unit) {
    var cs := Points(u, beyond);
    (forall k | 0 <= k < |cs| :: Scalar(cs[k])) && Utf16All(cs) == u
  }

  /** The input is read as the text it is exactly if it is well-formed, whatever lies behind it. */
  lemma ReadsWellExactly(u: seq<Unit>, beyond: Unit)
    ensures ReadsWell(u, beyond) <==> WellFormed(u)
  {
    if WellFormed(u) {
      WellFormedIsUtf16(u, beyond);
    }
    if ReadsWell(u, beyond) {
      Utf16IsWellFormed(Points(u, beyond));
    }
  }

  /** Then the output decodes to the same characters. */
  lemma OutputDecodes(u: seq<Unit>, beyond: Unit)
    requires WellFormed(u)
    ensures Decode(Converted(u, beyond)) == Some(Points(u, beyond)) && ReadsWell(u, beyond)
  {
    ReadsWellExactly(u, beyond);
    DecodeUtf8All(Points(u, beyond));
  }

  /** From any text to UTF-16, through the conversion and back to the text. */
  lemma TextComesBack(cs: seq<nat>, beyond: Unit)
    requires forall k | 0 <= k < |cs| :: Scalar(cs[k])
    ensures Decode(Converted(Utf16All(cs), beyond)) == Some(cs)
  {
    PointsOfUtf16(cs, beyond);
    DecodeUtf8All(cs);
  }

  lemma DigitsBack(x: nat, y: nat)
    requires y < 64
    ensures (x * 64 + y) / 64 == x && (x * 64 + y) % 64 == y
  {
  }

  lemma Base64Of3(x: nat, y: nat, z: nat)
    requires y < 64 && z < 64
    ensures var c := x * 4096 + y * 64 + z; c / 4096 == x && c / 64 % 64 == y && c % 64 == z
  {
    DigitsBack(x * 64 + y, z);
    DigitsBack(x, y);
  }

  lemma Base64Of4(w: nat, x: nat, y: nat, z: nat)
    requires x < 64 && y < 64 && z < 64
    ensures var c := w * 262144 + x * 4096 + y * 64 + z;
            c / 262144 == w && c / 4096 % 64 == x && c / 64 % 64 == y && c % 64 == z
  {
    Base64Of3(w * 64 + x, y, z);
    DigitsBack(w, x);
  }

  lemma TwoBytes(b: seq<nat>)
    requires |b| == 2 && 0xC2 <= b[0] < 0xE0 && Continuation(b[1])
    ensures Utf8((b[0] - 0xC0) * 64 + (b[1] - 0x80)) == b
  {
    DigitsBack(b[0] - 0xC0, b[1] - 0x80);
  }

  lemma ThreeBytes(b: seq<nat>, c: nat)
    requires |b| == 3 && 0xE0 <= b[0] < 0xF0 && Continuation(b[1]) && Continuation(b[2])
    requires c == (b[0] - 0xE0) * 4096 + (b[1] - 0x80) * 64 + (b[2] - 0x80) && 0x800 <= c
    ensures Utf8(c) == b
  {
    Base64Of3(b[0] - 0xE0, b[1] - 0x80, b[2] - 0x80);
  }

  lemma FourBytes(b: seq<nat>, c: nat)
    requires |b| == 4 && 0xF0 <= b[0] < 0xF8 && Continuation(b[1]) && Continuation(b[2]) && Continuation(b[3])
    requires c == (b[0] - 0xF0) * 262144 + (b[1] - 0x80) * 4096 + (b[2] - 0x80) * 64 + (b[3] - 0x80) && 0x10000 <= c
    ensures Utf8(c) == b
  {
    Base64Of4(b[0] - 0xF0, b[1] - 0x80, b[2] - 0x80, b[3] - 0x80);
  }

  lemma Utf8OfDecoded(b: seq<nat>, c: nat, n: nat)
    requires DecodeOne(b) == Some((c, n))
    ensures n <= |b| && Utf8(c) == b[..n]
  {
    var f := b[..n];
    if b[0] < 0x80 {
    } else if b[0] < 0xE0 {
      TwoBytes(f);
    } else if b[0] < 0xF0 {
      ThreeBytes(f, c);
    } else {
      FourBytes(f, c);
    }
  }

  /** The decoder accepts nothing but the UTF-8 of scalar values. */
  lemma {:induction false} DecoderIsStrict(b: seq<nat>)
    requires Decode(b).Some?
    ensures Utf8All(Decode(b).value) == b
    decreases |b|
  {
    if b != [] {
      var c, n := DecodeOne(b).value.0, DecodeOne(b).value.1;
      Utf8OfDecoded(b, c, n);
      DecoderIsStrict(b[n..]);
      Utf8AllCons(c, Decode(b[n..]).value);
      assert b == b[..n] + b[n..];
    }
  }
}
