/** UTF-16 strings and their UTF-8 form: the conversions behind Node's
    `Buffer.from(s)` (string to bytes) and `buf.toString()` (bytes to string). */
module Utf8 {
  import opened Options
  import opened Text

  predicate IsHigh(u: int) { 0xD800 <= u <= 0xDBFF }
  predicate IsLow(u: int) { 0xDC00 <= u <= 0xDFFF }
  predicate IsSurrogate(u: int) { 0xD800 <= u <= 0xDFFF }

  /** A Unicode scalar value: a code point that is not a surrogate. */
  predicate IsScalar(cp: int) {
    0 <= cp <= 0x10_FFFF && !IsSurrogate(cp)
  }

  /** The code point a surrogate pair stands for. */
  function PairValue(hi: Unit, lo: Unit): (cp: int)
    requires IsHigh(hi) && IsLow(lo)
    ensures 0x1_0000 <= cp <= 0x10_FFFF
  {
    0x1_0000 + (hi - 0xD800) * 0x400 + (lo - 0xDC00)
  }

  /** The UTF-16 code units of a scalar value. */
  function ScalarUnits(cp: int): (r: Str)
    requires IsScalar(cp)
  {
    if cp < 0x1_0000 then [cp]
    else [0xD800 + (cp - 0x1_0000) / 0x400, 0xDC00 + (cp - 0x1_0000) % 0x400]
  }

  /** A string without lone surrogates: every high surrogate is followed by
      a low one and every low surrogate follows a high one. */
  predicate WellFormed(s: Str)
    decreases |s|
  {
    if s == [] then true
    else if |s| >= 2 && IsHigh(s[0]) && IsLow(s[1]) then WellFormed(s[2..])
    else !IsSurrogate(s[0]) && WellFormed(s[1..])
  }

  function EncodeScalar(cp: int): (r: seq<Byte>)
    requires IsScalar(cp)
    ensures 1 <= |r| <= 4
  {
    if cp < 0x80 then [cp]
    else if cp < 0x800 then [0xC0 + cp / 64, 0x80 + cp % 64]
    else if cp < 0x1_0000 then [0xE0 + cp / 4096, 0x80 + (cp / 64) % 64, 0x80 + cp % 64]
    else [0xF0 + cp / 262144, 0x80 + (cp / 4096) % 64, 0x80 + (cp / 64) % 64, 0x80 + cp % 64]
  }

  const Replacement: int := 0xFFFD

  /** `Buffer.from(s, 'utf8')`: a lone surrogate becomes U+FFFD. */
  function Encode(s: Str): (r: seq<Byte>)
    decreases |s|
  {
    if s == [] then []
    else if |s| >= 2 && IsHigh(s[0]) && IsLow(s[1]) then EncodeScalar(PairValue(s[0], s[1])) + Encode(s[2..])
    else if IsSurrogate(s[0]) then EncodeScalar(Replacement) + Encode(s[1..])
    else EncodeScalar(s[0]) + Encode(s[1..])
  }

  predicate IsContinuation(b: Byte) { 0x80 <= b < 0xC0 }

  /** The scalar value the bytes start with, and how many bytes it takes:
      the well-formed sequences of the Unicode standard, no overlong
      forms, no surrogates, nothing above U+10FFFF. */
  function DecodeScalar(b: seq<Byte>): (r: Option<(int, nat)>)
    requires |b| > 0
    ensures r.Some? ==> IsScalar(r.value.0) && 1 <= r.value.1 <= |b|
  {
    var b0: int := b[0];
    if b0 < 0x80 then Some((b0, 1))
    else if 0xC0 <= b0 < 0xE0 then
      if |b| < 2 || !IsContinuation(b[1]) then None
      else
        var cp := (b0 - 0xC0) * 64 + (b[1] as int - 0x80);
        if cp < 0x80 then None else Some((cp, 2))
    else if 0xE0 <= b0 < 0xF0 then
      if |b| < 3 || !IsContinuation(b[1]) || !IsContinuation(b[2]) then None
      else
        var cp := (b0 - 0xE0) * 4096 + (b[1] as int - 0x80) * 64 + (b[2] as int - 0x80);
        if cp < 0x800 || IsSurrogate(cp) then None else Some((cp, 3))
    else if 0xF0 <= b0 < 0xF8 then
      if |b| < 4 || !IsContinuation(b[1]) || !IsContinuation(b[2]) || !IsContinuation(b[3]) then None
      else
        var cp := (b0 - 0xF0) * 262144 + (b[1] as int - 0x80) * 4096 + (b[2] as int - 0x80) * 64 + (b[3] as int - 0x80);
        if cp < 0x1_0000 || cp > 0x10_FFFF then None else Some((cp, 4))
    else None
  }

  /** Strict `buf.toString('utf8')`: fails on any ill-formed sequence. */
  function Decode(b: seq<Byte>): (r: Option<Str>)
    decreases |b|
    ensures r.Some? ==> WellFormed(r.value)
  {
    if b == [] then Some([])
    else
      var (cp, n) :- DecodeScalar(b);
      var rest :- Decode(b[n..]);
      ScalarUnitsWellFormed(cp, rest);
      Some(ScalarUnits(cp) + rest)
  }

  lemma ScalarUnitsWellFormed(cp: int, rest: Str)
    requires IsScalar(cp) && WellFormed(rest)
    ensures WellFormed(ScalarUnits(cp) + rest)
  {
    var s := ScalarUnits(cp) + rest;
    if cp < 0x1_0000 {
      assert s[1..] == rest;
    } else {
      assert s[2..] == rest;
    }
  }

  lemma PairUnits(hi: Unit, lo: Unit)
    requires IsHigh(hi) && IsLow(lo)
    ensures ScalarUnits(PairValue(hi, lo)) == [hi, lo]
  {
  }

  lemma TwoByteRoundTrip(cp: int, t: seq<Byte>)
    requires 0x80 <= cp < 0x800
    ensures DecodeScalar(EncodeScalar(cp) + t) == Some((cp, 2))
  {
    var b := EncodeScalar(cp) + t;
    assert b[0] == 0xC0 + cp / 64 && b[1] == 0x80 + cp % 64;
  }

  lemma ThreeByteRoundTrip(cp: int, t: seq<Byte>)
    requires 0x800 <= cp < 0x1_0000 && !IsSurrogate(cp)
    ensures DecodeScalar(EncodeScalar(cp) + t) == Some((cp, 3))
  {
    var b := EncodeScalar(cp) + t;
    assert b[0] == 0xE0 + cp / 4096 && b[1] == 0x80 + (cp / 64) % 64 && b[2] == 0x80 + cp % 64;
    assert (cp / 4096) * 4096 + ((cp / 64) % 64) * 64 + cp % 64 == cp;
  }

  lemma FourByteRoundTrip(cp: int, t: seq<Byte>)
    requires 0x1_0000 <= cp <= 0x10_FFFF
    ensures DecodeScalar(EncodeScalar(cp) + t) == Some((cp, 4))
  {
    var b := EncodeScalar(cp) + t;
    assert b[0] == 0xF0 + cp / 262144 && b[1] == 0x80 + (cp / 4096) % 64;
    assert b[2] == 0x80 + (cp / 64) % 64 && b[3] == 0x80 + cp % 64;
    assert (cp / 262144) * 262144 + ((cp / 4096) % 64) * 4096 + ((cp / 64) % 64) * 64 + cp % 64 == cp;
  }

  /** Decoding the encoding of one scalar value reads exactly that value. */
  lemma ScalarRoundTrip(cp: int, t: seq<Byte>)
    requires IsScalar(cp)
    ensures DecodeScalar(EncodeScalar(cp) + t) == Some((cp, |EncodeScalar(cp)|))
  {
    if cp < 0x80 {
    } else if cp < 0x800 {
      TwoByteRoundTrip(cp, t);
    } else if cp < 0x1_0000 {
      ThreeByteRoundTrip(cp, t);
    } else {
      FourByteRoundTrip(cp, t);
    }
  }

  /** Decoding undoes encoding on every well-formed string. */
  lemma {:induction false} RoundTrip(s: Str)
    requires WellFormed(s)
    ensures Decode(Encode(s)) == Some(s)
    decreases |s|
  {
    if s == [] {
    } else {
      var cp, k := if |s| >= 2 && IsHigh(s[0]) && IsLow(s[1]) then PairValue(s[0], s[1]) else s[0], if |s| >= 2 && IsHigh(s[0]) && IsLow(s[1]) then 2 else 1;
      if k == 2 { PairUnits(s[0], s[1]); }
      assert ScalarUnits(cp) == s[..k];
      var e := EncodeScalar(cp);
      assert Encode(s) == e + Encode(s[k..]);
      ScalarRoundTrip(cp, Encode(s[k..]));
      RoundTrip(s[k..]);
      assert (e + Encode(s[k..]))[|e|..] == Encode(s[k..]);
      assert s == s[..k] + s[k..];
    }
  }

  /** Joining two well-formed strings gives a well-formed string. */
  lemma {:induction false} ConcatWellFormed(a: Str, b: Str)
    requires WellFormed(a) && WellFormed(b)
    ensures WellFormed(a + b)
    decreases |a|
  {
    if a == [] {
      assert a + b == b;
    } else if |a| >= 2 && IsHigh(a[0]) && IsLow(a[1]) {
      ConcatWellFormed(a[2..], b);
      assert (a + b)[2..] == a[2..] + b;
    } else {
      ConcatWellFormed(a[1..], b);
      assert (a + b)[1..] == a[1..] + b;
    }
  }

  /** ASCII text has no surrogates, so it is well-formed. */
  lemma {:induction false} AsciiWellFormed(s: Str)
    requires IsAscii(s)
    ensures WellFormed(s)
    decreases |s|
  {
    if s != [] {
      AsciiWellFormed(s[1..]);
    }
  }

  lemma TwoByteDigits(x0: int, x1: int)
    requires 0 <= x0 < 32 && 0 <= x1 < 64
    ensures (x0 * 64 + x1) / 64 == x0 && (x0 * 64 + x1) % 64 == x1
  {
  }

  lemma ThreeByteDigits(x0: int, x1: int, x2: int)
    requires 0 <= x0 < 16 && 0 <= x1 < 64 && 0 <= x2 < 64
    ensures var cp := x0 * 4096 + x1 * 64 + x2;
      cp / 4096 == x0 && (cp / 64) % 64 == x1 && cp % 64 == x2
  {
    var cp := x0 * 4096 + x1 * 64 + x2;
    assert cp / 64 == x0 * 64 + x1;
  }

  lemma FourByteDigits(x0: int, x1: int, x2: int, x3: int)
    requires 0 <= x0 < 8 && 0 <= x1 < 64 && 0 <= x2 < 64 && 0 <= x3 < 64
    ensures var cp := x0 * 262144 + x1 * 4096 + x2 * 64 + x3;
      cp / 262144 == x0 && (cp / 4096) % 64 == x1 && (cp / 64) % 64 == x2 && cp % 64 == x3
  {
    var cp := x0 * 262144 + x1 * 4096 + x2 * 64 + x3;
    assert cp / 64 == x0 * 4096 + x1 * 64 + x2;
    assert cp / 4096 == x0 * 64 + x1;
  }

  /** The bytes a successful strict decode reads are exactly the encoding
      of the scalar value it returns. */
  lemma DecodeScalarExact(b: seq<Byte>)
    requires |b| > 0 && DecodeScalar(b).Some?
    ensures EncodeScalar(DecodeScalar(b).value.0) == b[..DecodeScalar(b).value.1]
  {
    var b0: int := b[0];
    if b0 < 0x80 {
    } else if b0 < 0xE0 {
      var x0, x1 := b0 - 0xC0, b[1] as int - 0x80;
      TwoByteDigits(x0, x1);
      assert DecodeScalar(b) == Some((x0 * 64 + x1, 2));
      assert b[..2] == [b[0], b[1]];
    } else if b0 < 0xF0 {
      var x0, x1, x2 := b0 - 0xE0, b[1] as int - 0x80, b[2] as int - 0x80;
      ThreeByteDigits(x0, x1, x2);
      assert DecodeScalar(b) == Some((x0 * 4096 + x1 * 64 + x2, 3));
      assert b[..3] == [b[0], b[1], b[2]];
    } else {
      var x0, x1, x2, x3 := b0 - 0xF0, b[1] as int - 0x80, b[2] as int - 0x80, b[3] as int - 0x80;
      FourByteDigits(x0, x1, x2, x3);
      assert DecodeScalar(b) == Some((x0 * 262144 + x1 * 4096 + x2 * 64 + x3, 4));
      assert b[..4] == [b[0], b[1], b[2], b[3]];
    }
  }

  /** Encoding the units of a scalar value encodes that value. */
  lemma EncodeScalarUnits(cp: int, rest: Str)
    requires IsScalar(cp)
    ensures Encode(ScalarUnits(cp) + rest) == EncodeScalar(cp) + Encode(rest)
  {
    var s := ScalarUnits(cp) + rest;
    if cp < 0x1_0000 {
      assert s[1..] == rest;
    } else {
      assert s[2..] == rest;
      assert PairValue(s[0], s[1]) == cp;
    }
  }

  /** A successful decode is the first scalar value followed by the
      decode of the remaining bytes. */
  lemma DecodeUnfold(b: seq<Byte>)
    requires b != [] && Decode(b).Some?
    ensures DecodeScalar(b).Some?
    ensures var (cp, n) := DecodeScalar(b).value;
      Decode(b[n..]).Some? && Decode(b).value == ScalarUnits(cp) + Decode(b[n..]).value
  {
  }

  lemma DecodeEncodeStep(b: seq<Byte>)
    requires b != [] && Decode(b).Some?
    requires DecodeScalar(b).Some? && Decode(b[DecodeScalar(b).value.1..]).Some?
    requires Encode(Decode(b[DecodeScalar(b).value.1..]).value) == b[DecodeScalar(b).value.1..]
    ensures Encode(Decode(b).value) == b
  {
    DecodeUnfold(b);
    var cp, n := DecodeScalar(b).value.0, DecodeScalar(b).value.1;
    DecodeScalarExact(b);
    EncodeConcat(b, cp, n, Decode(b[n..]).value);
  }

  lemma EncodeConcat(b: seq<Byte>, cp: int, n: nat, rest: Str)
    requires IsScalar(cp) && n <= |b| && EncodeScalar(cp) == b[..n] && Encode(rest) == b[n..]
    ensures Encode(ScalarUnits(cp) + rest) == b
  {
    EncodeScalarUnits(cp, rest);
    assert b == b[..n] + b[n..];
  }

  /** The strict decoder accepts only canonical UTF-8: whatever it decodes
      encodes back to the same bytes. */
  lemma {:induction false} DecodeEncode(b: seq<Byte>)
    requires Decode(b).Some?
    ensures Encode(Decode(b).value) == b
    decreases |b|
  {
    if b != [] {
      DecodeUnfold(b);
      DecodeEncode(b[DecodeScalar(b).value.1..]);
      DecodeEncodeStep(b);
    }
  }
}
