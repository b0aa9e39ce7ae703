/** Base64 as in section 4 of RFC 4648 (standard alphabet, `=` padding),
    the encoding behind Node's `Buffer.from(s, 'base64')` and `btoa`. */
module Base64 {
  import opened Options
  import opened Text

  const Pad: Unit := 61  // '='

  /** The alphabet of section 4 of RFC 4648: the symbol for a 6-bit value. */
  function Symbol(v: int): (c: Unit)
    requires 0 <= v < 64
    ensures c != Pad && c < 0x80
  {
    if v < 26 then 65 + v          // 'A'..'Z'
    else if v < 52 then 97 + v - 26 // 'a'..'z'
    else if v < 62 then 48 + v - 52 // '0'..'9'
    else if v == 62 then 43         // '+'
    else 47                         // '/'
  }

  /** The 6-bit value of an alphabet symbol, or -1 for any other unit. */
  function SextetOf(c: Unit): (v: int)
    ensures -1 <= v < 64
    ensures 0 <= v ==> Symbol(v) == c
  {
    if 65 <= c <= 90 then c - 65
    else if 97 <= c <= 122 then c - 71
    else if 48 <= c <= 57 then c + 4
    else if c == 43 then 62
    else if c == 47 then 63
    else -1
  }

  /** The units an encoder produces: alphabet symbols and the pad. */
  predicate IsEncodingUnit(c: Unit) {
    c == Pad || 0 <= SextetOf(c)
  }

  predicate AllEncodingUnits(s: Str) {
    forall i | 0 <= i < |s| :: IsEncodingUnit(s[i])
  }

  /** Three bytes as four symbols. */
  function Quad(b0: Byte, b1: Byte, b2: Byte): Str {
    [Symbol(b0 / 4), Symbol((b0 % 4) * 16 + b1 / 16), Symbol((b1 % 16) * 4 + b2 / 64), Symbol(b2 % 64)]
  }

  /** A final group of two bytes: three symbols and one pad. */
  function Pair(b0: Byte, b1: Byte): Str {
    [Symbol(b0 / 4), Symbol((b0 % 4) * 16 + b1 / 16), Symbol((b1 % 16) * 4), Pad]
  }

  /** A final group of one byte: two symbols and two pads. */
  function Single(b0: Byte): Str {
    [Symbol(b0 / 4), Symbol((b0 % 4) * 16), Pad, Pad]
  }

  /** Encoding of a byte string: whole groups of three bytes as four
      symbols, a final group of one or two bytes padded with `=`. */
  function Encode(b: seq<Byte>): (r: Str)
    decreases |b|
    ensures |r| == 4 * ((|b| + 2) / 3)
  {
    if |b| == 0 then []
    else if |b| == 1 then Single(b[0])
    else if |b| == 2 then Pair(b[0], b[1])
    else Quad(b[0], b[1], b[2]) + Encode(b[3..])
  }

  /** Four alphabet symbols as three bytes; anything else is rejected. */
  function DecodeQuad(q: Str): (r: Option<seq<Byte>>)
    requires |q| == 4
    ensures r.Some? ==> |r.value| == 3
  {
    var v0, v1, v2, v3 := SextetOf(q[0]), SextetOf(q[1]), SextetOf(q[2]), SextetOf(q[3]);
    if v0 < 0 || v1 < 0 || v2 < 0 || v3 < 0 then None
    else Some([v0 * 4 + v1 / 16, (v1 % 16) * 16 + v2 / 4, (v2 % 4) * 64 + v3])
  }

  /** The last group of four, which may end in one or two pads. */
  function DecodeLast(q: Str): (r: Option<seq<Byte>>)
    requires |q| == 4
    ensures r.Some? ==> 1 <= |r.value| <= 3
  {
    var v0, v1, v2 := SextetOf(q[0]), SextetOf(q[1]), SextetOf(q[2]);
    if q[2] == Pad && q[3] == Pad then
      if v0 < 0 || v1 < 0 then None else Some([v0 * 4 + v1 / 16])
    else if q[3] == Pad then
      if v0 < 0 || v1 < 0 || v2 < 0 then None
      else Some([v0 * 4 + v1 / 16, (v1 % 16) * 16 + v2 / 4])
    else DecodeQuad(q)
  }

  /** Strict decoding: the length must be a multiple of four, every unit an
      alphabet symbol, and pads may only end the last group. */
  function Decode(s: Str): (r: Option<seq<Byte>>)
    decreases |s|
    ensures r.Some? ==> |s| % 4 == 0
  {
    if |s| == 0 then Some([])
    else if |s| < 4 then None
    else if |s| == 4 then DecodeLast(s)
    else
      var head :- DecodeQuad(s[..4]);
      var tail :- Decode(s[4..]);
      Some(head + tail)
  }

  /** The encoder writes only alphabet symbols and pads. */
  lemma {:induction false} EncodeUnits(b: seq<Byte>)
    ensures AllEncodingUnits(Encode(b))
    decreases |b|
  {
    if |b| == 1 {
      assert Encode(b) == Single(b[0]);
    } else if |b| == 2 {
      assert Encode(b) == Pair(b[0], b[1]);
    } else if |b| > 2 {
      var q, e := Quad(b[0], b[1], b[2]), Encode(b[3..]);
      assert AllEncodingUnits(e) by {
        EncodeUnits(b[3..]);
      }
      assert AllEncodingUnits(q);
      assert Encode(b) == q + e;
      forall i | 0 <= i < |q + e| ensures IsEncodingUnit((q + e)[i]) {
        if i >= 4 {
          assert (q + e)[i] == e[i - 4];
        }
      }
    }
  }

  lemma SextetOfSymbol(v: int)
    requires 0 <= v < 64
    ensures SextetOf(Symbol(v)) == v
  {
  }

  lemma QuadRoundTrip(b0: Byte, b1: Byte, b2: Byte)
    ensures DecodeQuad(Quad(b0, b1, b2)) == Some([b0, b1, b2])
  {
    var v0, v1, v2, v3 := b0 / 4, (b0 % 4) * 16 + b1 / 16, (b1 % 16) * 4 + b2 / 64, b2 % 64;
    SextetOfSymbol(v0);
    SextetOfSymbol(v1);
    SextetOfSymbol(v2);
    SextetOfSymbol(v3);
    assert v0 * 4 + v1 / 16 == b0;
    assert (v1 % 16) * 16 + v2 / 4 == b1;
    assert (v2 % 4) * 64 + v3 == b2;
  }

  lemma PairRoundTrip(b0: Byte, b1: Byte)
    ensures DecodeLast(Pair(b0, b1)) == Some([b0, b1])
  {
    var v0, v1, v2 := b0 / 4, (b0 % 4) * 16 + b1 / 16, (b1 % 16) * 4;
    SextetOfSymbol(v0);
    SextetOfSymbol(v1);
    SextetOfSymbol(v2);
    assert v0 * 4 + v1 / 16 == b0;
    assert (v1 % 16) * 16 + v2 / 4 == b1;
  }

  lemma SingleRoundTrip(b0: Byte)
    ensures DecodeLast(Single(b0)) == Some([b0])
  {
    SextetOfSymbol(b0 / 4);
    SextetOfSymbol((b0 % 4) * 16);
  }

  lemma SplitGroup(b: seq<Byte>)
    requires |b| >= 3
    ensures b == [b[0], b[1], b[2]] + b[3..]
  {
  }

  lemma TripleRoundTrip(b: seq<Byte>)
    requires |b| == 3
    ensures Decode(Encode(b)) == Some(b)
  {
    QuadRoundTrip(b[0], b[1], b[2]);
    assert Encode(b[3..]) == [];
    assert Encode(b) == Quad(b[0], b[1], b[2]);
    SplitGroup(b);
    assert b == [b[0], b[1], b[2]];
  }

  lemma DecodeOneGroup(s: Str)
    requires |s| == 4
    ensures Decode(s) == DecodeLast(s)
  {
  }

  lemma OneByteRoundTrip(b: seq<Byte>)
    requires |b| == 1
    ensures Decode(Encode(b)) == Some(b)
  {
    assert Encode(b) == Single(b[0]);
    DecodeOneGroup(Single(b[0]));
    SingleRoundTrip(b[0]);
    assert b == [b[0]];
  }

  lemma TwoByteRoundTrip(b: seq<Byte>)
    requires |b| == 2
    ensures Decode(Encode(b)) == Some(b)
  {
    assert Encode(b) == Pair(b[0], b[1]);
    DecodeOneGroup(Pair(b[0], b[1]));
    PairRoundTrip(b[0], b[1]);
    assert b == [b[0], b[1]];
  }

  /** One more full group in front keeps the round trip. */
  lemma RoundTripStep(b: seq<Byte>)
    requires |b| > 3 && Decode(Encode(b[3..])) == Some(b[3..])
    ensures Decode(Encode(b)) == Some(b)
  {
    var q, e := Quad(b[0], b[1], b[2]), Encode(b[3..]);
    var s := q + e;
    assert Encode(b) == s;
    QuadRoundTrip(b[0], b[1], b[2]);
    assert s[..4] == q;
    assert s[4..] == e;
    assert Decode(s) == Some([b[0], b[1], b[2]] + b[3..]);
    SplitGroup(b);
  }

  /** Decoding undoes encoding, for every byte string. */
  lemma {:induction false} RoundTrip(b: seq<Byte>)
    ensures Decode(Encode(b)) == Some(b)
    decreases |b|
  {
    if |b| == 0 {
    } else if |b| == 1 {
      OneByteRoundTrip(b);
    } else if |b| == 2 {
      TwoByteRoundTrip(b);
    } else if |b| == 3 {
      TripleRoundTrip(b);
    } else {
      RoundTrip(b[3..]);
      RoundTripStep(b);
    }
  }
}
