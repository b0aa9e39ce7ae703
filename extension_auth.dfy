/** `decryptExtensionHeader` (html_content.js): the decoder of the
    `X-Extension-Auth` header, and the encoding a calling extension uses
    to build that header, with the round trip between them. */
module ExtensionAuth {
  import opened Options
  import opened Text
  import opened Numbers
  import Base64
  import Utf8

  /** The literal the decoded header is split on. */
  const Sentinel: Str := [95, 95, 83, 69, 78, 84, 73, 78, 69, 76, 95, 95]  // "__SENTINEL__"

  /** The field separator of the decrypted payload, '|'. */
  const Bar: Unit := 124

  /** The code units `/./` does not match: LF, CR, LS and PS. */
  predicate IsLineTerminator(u: Unit) {
    u == 0x0A || u == 0x0D || u == 0x2028 || u == 0x2029
  }

  /** `String.fromCharCode(c.charCodeAt(0) - 3)` for a matched unit; the
      result is taken modulo 2^16 as `fromCharCode` does. */
  function UnshiftUnit(u: Unit): Unit {
    if IsLineTerminator(u) then u else (u - 3) % 0x1_0000
  }

  /** `s.replace(/./g, c => String.fromCharCode(c.charCodeAt(0) - 3))`:
      every unit but a line terminator moves down by three. */
  function Unshift(s: Str): (r: Str)
    ensures |r| == |s|
  {
    seq(|s|, i requires 0 <= i < |s| => UnshiftUnit(s[i]))
  }

  /** The encoder's step: every unit moves up by three. */
  function ShiftUnit(u: Unit): Unit {
    (u + 3) % 0x1_0000
  }

  function Shift(s: Str): (r: Str)
    ensures |r| == |s|
  {
    seq(|s|, i requires 0 <= i < |s| => ShiftUnit(s[i]))
  }

  /** `Buffer.from(s, 'base64').toString()`: only whole base64 groups
      decode, and the text they give is well-formed UTF-16. */
  function DecodeText(s: Str): (r: Option<Str>)
    ensures r.Some? ==> |s| % 4 == 0 && Utf8.WellFormed(r.value)
  {
    var bytes :- Base64.Decode(s);
    Utf8.Decode(bytes)
  }

  /** `Buffer.from(s).toString('base64')`, what the extension sends. */
  function EncodeText(s: Str): Str {
    Base64.Encode(Utf8.Encode(s))
  }

  /** `const [extensionId, ts, n] = originalData.split('|')` and the check
      that follows: a missing field is `undefined` and never equals a
      string, fields after the third are ignored. */
  function SelectId(original: Str, timestamp: Str, nonce: Str): (r: Option<Str>)
    ensures r.Some? ==> forall i | 0 <= i < |r.value| :: r.value[i] != Bar
  {
    var fields := Split(original, [Bar]);
    if |fields| >= 3 && fields[1] == timestamp && fields[2] == nonce then
      FreeOfUnit(fields[0], Bar);
      Some(fields[0])
    else None
  }

  /** `decryptExtensionHeader(authHeader, timestamp, nonce)`; `None` is the
      `null` it returns on every failure, including a caught exception. */
  function DecryptExtensionHeader(authHeader: Str, timestamp: Str, nonce: Str): (r: Option<Str>)
    ensures r.Some? ==> forall i | 0 <= i < |r.value| :: r.value[i] != Bar
  {
    var decoded :- DecodeText(authHeader);
    var parts := Split(decoded, Sentinel);
    if |parts| != 2 then None
    else if NumberToString(ParseInt(parts[1], 36)) != timestamp then None
    else
      var step2 := Unshift(parts[0]);
      var step1 := Reverse(step2);
      var originalData :- DecodeText(step1);
      SelectId(originalData, timestamp, nonce)
  }

  /** How the calling extension builds the header for `id` at time `t`
      (milliseconds) with `nonce`: the payload `id|t|nonce` is base64
      encoded, reversed and shifted up by three, then the sentinel and `t`
      in base 36 are appended and the whole is base64 encoded. */
  function EncodeExtensionHeader(id: Str, t: nat, nonce: Str): Str {
    var payload := id + [Bar] + NumberToString(Some(t)) + [Bar] + nonce;
    var encrypted := Shift(Reverse(EncodeText(payload)));
    EncodeText(encrypted + Sentinel + ToRadix(t, 36))
  }

  // ---------------------------------------------------------------------
  // Properties of the steps

  /** Unshifting undoes shifting, unless a shifted unit is a line
      terminator, which the `/./` pattern skips. */
  lemma UnshiftShift(s: Str)
    requires forall i | 0 <= i < |s| :: !IsLineTerminator(ShiftUnit(s[i]))
    ensures Unshift(Shift(s)) == s
  {
  }

  /** A line terminator is never matched by `/./`, so it survives the
      unshift step unchanged while every other unit changes. */
  lemma UnshiftKeepsLineTerminators(s: Str)
    ensures forall i | 0 <= i < |s| :: IsLineTerminator(s[i]) <==> Unshift(s)[i] == s[i]
  {
  }

  lemma TextRoundTrip(s: Str)
    requires Utf8.WellFormed(s)
    ensures DecodeText(EncodeText(s)) == Some(s)
  {
    Base64.RoundTrip(Utf8.Encode(s));
    Utf8.RoundTrip(s);
  }

  /** A base64 symbol or pad moved up by three is ASCII, is not '_' (the
      sentinel's first unit) and is not a line terminator. */
  lemma ShiftedEncodingUnit(c: Unit)
    requires Base64.IsEncodingUnit(c)
    ensures ShiftUnit(c) < 0x80 && ShiftUnit(c) != Sentinel[0] && !IsLineTerminator(ShiftUnit(c))
  {
  }

  /** The payload's three fields come back from the final split, whatever
      follows the third one. */
  lemma {:induction false} SplitFields(id: Str, ts: Str, nonce: Str, tail: Str)
    requires forall i | 0 <= i < |id| :: id[i] != Bar
    requires forall i | 0 <= i < |ts| :: ts[i] != Bar
    requires forall i | 0 <= i < |nonce| :: nonce[i] != Bar
    requires tail == [] || tail[0] == Bar
    ensures var fields := Split(id + [Bar] + ts + [Bar] + nonce + tail, [Bar]);
      |fields| >= 3 && fields[0] == id && fields[1] == ts && fields[2] == nonce
  {
    var rest := ts + [Bar] + nonce + tail;
    assert id + [Bar] + ts + [Bar] + nonce + tail == id + [Bar] + rest;
    SplitAfter(id, [Bar], rest);
    assert ts + [Bar] + nonce + tail == ts + [Bar] + (nonce + tail);
    SplitAfter(ts, [Bar], nonce + tail);
    if tail == [] {
      assert nonce + tail == nonce;
      SplitFree(nonce, [Bar]);
    } else {
      assert tail == [Bar] + tail[1..];
      assert nonce + tail == nonce + [Bar] + tail[1..];
      SplitAfter(nonce, [Bar], tail[1..]);
    }
  }

  /** Fields after the third do not matter: only the first three are read. */
  lemma SelectIdIgnoresExtraFields(id: Str, ts: Str, nonce: Str, extra: Str)
    requires forall i | 0 <= i < |id| :: id[i] != Bar
    requires forall i | 0 <= i < |ts| :: ts[i] != Bar
    requires forall i | 0 <= i < |nonce| :: nonce[i] != Bar
    ensures SelectId(id + [Bar] + ts + [Bar] + nonce + [Bar] + extra, ts, nonce) == Some(id)
  {
    SplitFields(id, ts, nonce, [Bar] + extra);
    assert id + [Bar] + ts + [Bar] + nonce + [Bar] + extra == id + [Bar] + ts + [Bar] + nonce + ([Bar] + extra);
  }

  /** With fewer than three fields there is nothing to accept. */
  lemma SelectIdNeedsThreeFields(original: Str, timestamp: Str, nonce: Str)
    requires |Split(original, [Bar])| < 3
    ensures SelectId(original, timestamp, nonce) == None
  {
  }

  /** The field check binds the identifier to the request: an accepted
      payload starts with `id|timestamp|nonce`, and whatever follows is
      another field. */
  lemma SelectIdBinds(original: Str, timestamp: Str, nonce: Str)
    requires SelectId(original, timestamp, nonce).Some?
    ensures var head := SelectId(original, timestamp, nonce).value + [Bar] + timestamp + [Bar] + nonce;
      && |head| <= |original| && original[..|head|] == head
      && (|head| < |original| ==> original[|head|] == Bar)
  {
    var fields := Split(original, [Bar]);
    var id := fields[0];
    var head := id + [Bar] + timestamp + [Bar] + nonce;
    var tail := if |fields| == 3 then [] else [Bar] + Join(fields[3..], [Bar]);
    assert Join(fields[2..], [Bar]) == nonce + tail by {
      if |fields| > 3 {
        assert fields[2..][1..] == fields[3..];
      }
    }
    assert Join(fields[1..], [Bar]) == timestamp + [Bar] + (nonce + tail) by {
      assert fields[1..][1..] == fields[2..];
    }
    assert original == id + [Bar] + (timestamp + [Bar] + (nonce + tail)) by {
      JoinSplit(original, [Bar]);
    }
    assert original == head + tail;
    assert original[..|head|] == head;
  }

  // ---------------------------------------------------------------------
  // Properties of the decoder

  /** Whatever the decoder accepts, the timestamp text is what `String`
      prints for some number: a canonical decimal numeral (no sign but a
      minus, no leading zero, no trailing junk) or "NaN". */
  lemma DecryptTimestampPrinted(authHeader: Str, timestamp: Str, nonce: Str)
    requires DecryptExtensionHeader(authHeader, timestamp, nonce).Some?
    ensures timestamp == NaNText || CanonicalDecimal(timestamp)
  {
    var decoded := DecodeText(authHeader).value;
    var parts := Split(decoded, Sentinel);
    var v := ParseInt(parts[1], 36);
    if v.Some? {
      PrintCanonical(v.value);
    }
  }

  /** The decoder accepts only a header that decodes to exactly two
      sentinel-separated parts whose second part, read in base 36 and
      printed in decimal, is the timestamp text. */
  lemma DecryptNeedsTwoParts(authHeader: Str, timestamp: Str, nonce: Str)
    requires DecryptExtensionHeader(authHeader, timestamp, nonce).Some?
    ensures DecodeText(authHeader).Some?
    ensures var parts := Split(DecodeText(authHeader).value, Sentinel);
      |parts| == 2 && NumberToString(ParseInt(parts[1], 36)) == timestamp
  {
  }

  /** The payload the extension encodes is well-formed UTF-16 when its
      identifier and nonce are. */
  lemma PayloadWellFormed(id: Str, ts: Str, nonce: Str)
    requires Utf8.WellFormed(id) && IsAscii(ts) && Utf8.WellFormed(nonce)
    ensures Utf8.WellFormed(id + [Bar] + ts + [Bar] + nonce)
  {
    Utf8.AsciiWellFormed(ts);
    Utf8.AsciiWellFormed([Bar]);
    Utf8.ConcatWellFormed(id, [Bar]);
    Utf8.ConcatWellFormed(id + [Bar], ts);
    Utf8.ConcatWellFormed(id + [Bar] + ts, [Bar]);
    Utf8.ConcatWellFormed(id + [Bar] + ts + [Bar], nonce);
  }

  /** Reverse-then-shift applied to base64 text is undone by the decoder's
      unshift-then-reverse. */
  lemma ObfuscationRoundTrip(step1: Str)
    requires Base64.AllEncodingUnits(step1)
    ensures Reverse(Unshift(Shift(Reverse(step1)))) == step1
  {
    var reversed := Reverse(step1);
    forall i | 0 <= i < |reversed| ensures !IsLineTerminator(ShiftUnit(reversed[i])) {
      ShiftedEncodingUnit(reversed[i]);
    }
    UnshiftShift(reversed);
    ReverseInvolutive(step1);
  }

  /** Base64 text reversed and shifted is ASCII without '_', so it cannot
      hold the sentinel. */
  lemma ObfuscatedAscii(step1: Str)
    requires Base64.AllEncodingUnits(step1)
    ensures var encrypted := Shift(Reverse(step1));
      IsAscii(encrypted) && forall i | 0 <= i < |encrypted| :: encrypted[i] != Sentinel[0]
  {
    var reversed := Reverse(step1);
    forall i | 0 <= i < |reversed| ensures ShiftUnit(reversed[i]) < 0x80 && ShiftUnit(reversed[i]) != Sentinel[0] {
      ShiftedEncodingUnit(reversed[i]);
    }
  }

  /** The outer layer: the header decodes to the obfuscated payload and
      the base-36 time, split apart at the sentinel, and the base-36 time
      reads back as `t`. */
  lemma OuterLayerRoundTrip(encrypted: Str, t: nat)
    requires IsAscii(encrypted) && forall i | 0 <= i < |encrypted| :: encrypted[i] != Sentinel[0]
    ensures var outer := encrypted + Sentinel + ToRadix(t, 36);
      && DecodeText(EncodeText(outer)) == Some(outer)
      && Split(outer, Sentinel) == [encrypted, ToRadix(t, 36)]
      && ParseInt(ToRadix(t, 36), 36) == Some(t)
  {
    var b36 := ToRadix(t, 36);
    assert forall i | 0 <= i < |b36| :: b36[i] < 0x80 && b36[i] != Sentinel[0];
    var outer := encrypted + Sentinel + b36;
    AsciiConcat(encrypted, Sentinel);
    AsciiConcat(encrypted + Sentinel, b36);
    Utf8.AsciiWellFormed(outer);
    TextRoundTrip(outer);
    SplitAfter(encrypted, Sentinel, b36);
    SplitFree(b36, Sentinel);
    ParseToRadix(t, 36);
  }

  /** The decoder's steps, once each of them is known to succeed. */
  lemma DecryptSteps(authHeader: Str, timestamp: Str, nonce: Str, encrypted: Str, check: Str, originalData: Str)
    requires DecodeText(authHeader).Some?
    requires Split(DecodeText(authHeader).value, Sentinel) == [encrypted, check]
    requires NumberToString(ParseInt(check, 36)) == timestamp
    requires DecodeText(Reverse(Unshift(encrypted))) == Some(originalData)
    ensures DecryptExtensionHeader(authHeader, timestamp, nonce) == SelectId(originalData, timestamp, nonce)
  {
  }

  /** The layers of a header the extension built: it decodes to the
      obfuscated payload and the base-36 time, which the sentinel split
      separates; the base-36 time reads back as `t`; and undoing the
      obfuscation gives back the payload `id|t|nonce`. */
  lemma EncodedLayers(id: Str, t: nat, nonce: Str)
    requires Utf8.WellFormed(id) && Utf8.WellFormed(nonce)
    ensures var payload := id + [Bar] + NumberToString(Some(t)) + [Bar] + nonce;
      var encrypted := Shift(Reverse(EncodeText(payload)));
      var header := EncodeExtensionHeader(id, t, nonce);
      && DecodeText(header).Some?
      && Split(DecodeText(header).value, Sentinel) == [encrypted, ToRadix(t, 36)]
      && ParseInt(ToRadix(t, 36), 36) == Some(t)
      && DecodeText(Reverse(Unshift(encrypted))) == Some(payload)
  {
    var ts := NumberToString(Some(t));
    var payload := id + [Bar] + ts + [Bar] + nonce;
    var step1 := EncodeText(payload);
    var encrypted := Shift(Reverse(step1));
    var outer := encrypted + Sentinel + ToRadix(t, 36);
    assert IsAscii(ts);
    assert DecodeText(step1) == Some(payload) by {
      PayloadWellFormed(id, ts, nonce);
      TextRoundTrip(payload);
    }
    assert Base64.AllEncodingUnits(step1) by {
      Base64.EncodeUnits(Utf8.Encode(payload));
    }
    assert Reverse(Unshift(encrypted)) == step1 by {
      ObfuscationRoundTrip(step1);
    }
    assert DecodeText(EncodeText(outer)) == Some(outer) && Split(outer, Sentinel) == [encrypted, ToRadix(t, 36)]
        && ParseInt(ToRadix(t, 36), 36) == Some(t) by {
      ObfuscatedAscii(step1);
      OuterLayerRoundTrip(encrypted, t);
    }
    assert EncodeExtensionHeader(id, t, nonce) == EncodeText(outer);
  }

  /** A header the extension built for `id`, time `t` and `nonce` decodes
      to `id` exactly when the request's timestamp header is `t` in decimal
      and its nonce header is `nonce`; with any other timestamp or nonce
      the decoder refuses it. */
  lemma DecryptBinds(id: Str, t: nat, nonce: Str, timestamp: Str, nonce': Str)
    requires Utf8.WellFormed(id) && Utf8.WellFormed(nonce)
    requires forall i | 0 <= i < |id| :: id[i] != Bar
    requires forall i | 0 <= i < |nonce| :: nonce[i] != Bar
    ensures DecryptExtensionHeader(EncodeExtensionHeader(id, t, nonce), timestamp, nonce') ==
      if timestamp == NumberToString(Some(t)) && nonce' == nonce then Some(id) else None
  {
    var ts := NumberToString(Some(t));
    var payload := id + [Bar] + ts + [Bar] + nonce;
    var encrypted := Shift(Reverse(EncodeText(payload)));
    var header := EncodeExtensionHeader(id, t, nonce);
    var b36 := ToRadix(t, 36);
    EncodedLayers(id, t, nonce);
    if timestamp == ts {
      assert SelectId(payload, ts, nonce') == if nonce' == nonce then Some(id) else None by {
        assert forall i | 0 <= i < |ts| :: ts[i] != Bar;
        SplitFields(id, ts, nonce, []);
        assert payload + [] == payload;
      }
      DecryptSteps(header, ts, nonce', encrypted, b36, payload);
    }
  }

  /** The round trip: a header built by the extension's encoding for `id`,
      time `t` and `nonce` decodes to `id` when the request's timestamp
      header is `t` in decimal and its nonce header is `nonce`. */
  lemma DecryptRoundTrip(id: Str, t: nat, nonce: Str)
    requires Utf8.WellFormed(id) && Utf8.WellFormed(nonce)
    requires forall i | 0 <= i < |id| :: id[i] != Bar
    requires forall i | 0 <= i < |nonce| :: nonce[i] != Bar
    ensures DecryptExtensionHeader(EncodeExtensionHeader(id, t, nonce), NumberToString(Some(t)), nonce) == Some(id)
  {
    DecryptBinds(id, t, nonce, NumberToString(Some(t)), nonce);
  }
}
