/** JavaScript's `parseInt(string, radix)` and `Number.prototype.toString`
    on integers, over unbounded integers (`None` plays `NaN`). */
module Numbers {
  import opened Options
  import opened Text

  const Minus: Unit := 45  // '-'
  const Plus: Unit := 43   // '+'
  const Zero: Unit := 48   // '0'

  /** "NaN", what `String(NaN)` gives. */
  const NaNText: Str := [78, 97, 78]

  /** The value of a digit in any radix up to 36 (either letter case), or
      -1 for a unit that is no digit at all. */
  function DigitValue(c: Unit): (v: int)
    ensures -1 <= v < 36
  {
    if 48 <= c <= 57 then c - 48        // '0'..'9'
    else if 97 <= c <= 122 then c - 87  // 'a'..'z'
    else if 65 <= c <= 90 then c - 55   // 'A'..'Z'
    else -1
  }

  /** The lower-case digit `toString` writes for a value. */
  function DigitChar(d: int): (c: Unit)
    requires 0 <= d < 36
    ensures DigitValue(c) == d
  {
    if d < 10 then 48 + d else 87 + d
  }

  predicate IsRadix(radix: int) { 2 <= radix <= 36 }

  predicate IsDigit(c: Unit, radix: int) {
    0 <= DigitValue(c) < radix
  }

  predicate AllDigits(d: Str, radix: int) {
    forall i | 0 <= i < |d| :: IsDigit(d[i], radix)
  }

  /** Length of the longest prefix of `s` made of digits of `radix`. */
  function DigitRun(s: Str, radix: int): (n: nat)
    decreases |s|
    ensures n <= |s| && AllDigits(s[..n], radix)
    ensures n < |s| ==> !IsDigit(s[n], radix)
  {
    if s == [] || !IsDigit(s[0], radix) then 0
    else
      var n := 1 + DigitRun(s[1..], radix);
      assert s[..n] == [s[0]] + s[1..][..n - 1];
      n
  }

  /** The number a string of digits denotes, most significant first. */
  function Value(d: Str, radix: int): nat
    requires IsRadix(radix) && AllDigits(d, radix)
    decreases |d|
  {
    if d == [] then 0 else Value(d[..|d| - 1], radix) * radix + DigitValue(d[|d| - 1])
  }

  /** Starts with "0x" or "0X". */
  predicate HasHexPrefix(s: Str) {
    |s| >= 2 && s[0] == Zero && (s[1] == 120 || s[1] == 88)
  }

  /** `parseInt(s, radix)` as ECMAScript defines it, with `radix == 0`
      standing for a missing radix: an optional sign; with no radix or
      radix 16 an optional "0x"/"0X" that selects radix 16; no radix
      otherwise means 10; then the longest run of digits, NaN if it is
      empty. Anything after the run is ignored. */
  function ParseInt(s: Str, radix: int): (r: Option<int>)
    ensures r.Some? ==> radix == 0 || IsRadix(radix)
    ensures |s| == 0 ==> r.None?
    ensures r.Some? && r.value < 0 ==> |s| > 0 && s[0] == Minus
    ensures |s| > 0 && s[0] == Plus && r.Some? ==> r.value >= 0
  {
    if radix != 0 && !IsRadix(radix) then None
    else
      var negative := |s| > 0 && s[0] == Minus;
      var unsigned := if |s| > 0 && (s[0] == Minus || s[0] == Plus) then s[1..] else s;
      var hex := (radix == 0 || radix == 16) && HasHexPrefix(unsigned);
      var base := if hex then 16 else if radix == 0 then 10 else radix;
      var body := if hex then unsigned[2..] else unsigned;
      var n := DigitRun(body, base);
      if n == 0 then None
      else
        var v: int := Value(body[..n], base);
        Some(if negative then -v else v)
  }

  /** `n.toString(radix)` for a non-negative integer, lower-case digits. */
  function ToRadix(n: nat, radix: int): (r: Str)
    requires IsRadix(radix)
    decreases n
    ensures |r| >= 1 && AllDigits(r, radix)
    ensures r[0] == Zero ==> n == 0 && |r| == 1
  {
    if n < radix then [DigitChar(n)]
    else ToRadix(n / radix, radix) + [DigitChar(n % radix)]
  }

  /** `String(v)` for an integer or NaN. */
  function NumberToString(v: Option<int>): (r: Str)
    ensures r == NaNText <==> v.None?
    ensures v.Some? ==> |r| >= 1 && (r[0] == Minus <==> v.value < 0)
  {
    match v
    case None => NaNText
    case Some(n) =>
      var d := ToRadix(if n < 0 then -n else n, 10);
      assert IsDigit(d[0], 10) && !IsDigit(NaNText[0], 10);
      if n < 0 then [Minus] + d else d
  }

  /** A decimal numeral without sign or superfluous leading zero. */
  predicate CanonicalDigits(d: Str) {
    |d| >= 1 && AllDigits(d, 10) && (d[0] == Zero ==> |d| == 1)
  }

  /** The text `String(n)` produces for an integer: canonical digits, with
      a minus sign before anything but zero. */
  predicate CanonicalDecimal(s: Str) {
    CanonicalDigits(s) || (|s| >= 2 && s[0] == Minus && CanonicalDigits(s[1..]) && s[1] != Zero)
  }

  lemma DivLess(n: nat, radix: int)
    requires IsRadix(radix) && n >= 1
    ensures n / radix < n
  {
    var q, m := n / radix, n % radix;
    assert n == q * radix + m && m >= 0;
    if q > 0 {
      assert (radix - 2) * q >= 0;
      assert (radix - 2) * q == q * radix - 2 * q;
    }
  }

  lemma DivMod(n: nat, radix: int)
    requires IsRadix(radix)
    ensures (n / radix) * radix + n % radix == n
  {
  }

  /** Appending a digit multiplies by the radix and adds the digit. */
  lemma ValueSnoc(d: Str, c: Unit, radix: int)
    requires IsRadix(radix) && AllDigits(d, radix) && IsDigit(c, radix)
    ensures Value(d + [c], radix) == Value(d, radix) * radix + DigitValue(c)
  {
    assert (d + [c])[..|d|] == d;
  }

  /** Reading back the digits `toString` wrote gives the number. */
  lemma {:induction false} ValueToRadix(n: nat, radix: int)
    requires IsRadix(radix)
    ensures Value(ToRadix(n, radix), radix) == n
    decreases n
  {
    if n >= radix {
      var q, m := n / radix, n % radix;
      var init := ToRadix(q, radix);
      assert ToRadix(n, radix) == init + [DigitChar(m)];
      DivLess(n, radix);
      ValueToRadix(q, radix);
      assert Value(init, radix) == q;
      ValueSnoc(init, DigitChar(m), radix);
      assert Value(init + [DigitChar(m)], radix) == q * radix + m;
      DivMod(n, radix);
    }
  }

  /** `parseInt` reads back what `toString` wrote, for every radix and for
      the missing radix (which reads decimal). */
  lemma ParseToRadix(n: nat, radix: int)
    requires radix == 0 || IsRadix(radix)
    ensures ParseInt(ToRadix(n, if radix == 0 then 10 else radix), radix) == Some(n)
  {
    var base := if radix == 0 then 10 else radix;
    var d := ToRadix(n, base);
    assert d[0] != Minus && d[0] != Plus;
    assert !HasHexPrefix(d);
    assert DigitRun(d, base) == |d|;
    assert d[..|d|] == d;
    ValueToRadix(n, base);
  }

  /** A value is at least one when its leading digit is not zero. */
  lemma {:induction false} ValuePositive(d: Str, radix: int)
    requires IsRadix(radix) && AllDigits(d, radix) && |d| >= 1 && DigitValue(d[0]) != 0
    ensures Value(d, radix) >= 1
    decreases |d|
  {
    if |d| > 1 {
      ValuePositive(d[..|d| - 1], radix);
    }
  }

  /** Canonical decimal digits are exactly what `toString` writes for
      their value. */
  lemma {:induction false} ToRadixValue(d: Str)
    requires CanonicalDigits(d)
    ensures ToRadix(Value(d, 10), 10) == d
    decreases |d|
  {
    if |d| > 1 {
      var init := d[..|d| - 1];
      ValuePositive(init, 10);
      ToRadixValue(init);
      var v := Value(d, 10);
      assert v / 10 == Value(init, 10) && v % 10 == DigitValue(d[|d| - 1]);
      assert DigitChar(DigitValue(d[|d| - 1])) == d[|d| - 1];
      assert d == init + [d[|d| - 1]];
    } else {
      assert DigitChar(DigitValue(d[0])) == d[0];
    }
  }

  /** `String(n)` always yields a canonical decimal numeral. */
  lemma PrintCanonical(n: int)
    ensures CanonicalDecimal(NumberToString(Some(n)))
  {
    if n < 0 {
      var d := ToRadix(-n, 10);
      assert ([Minus] + d)[1..] == d;
    }
  }

  /** A canonical decimal numeral is read by `parseInt` (with or without a
      radix of 10) to the integer whose `String` it is. */
  lemma ParseCanonical(s: Str)
    requires CanonicalDecimal(s)
    ensures ParseInt(s, 0).Some? && ParseInt(s, 0) == ParseInt(s, 10)
    ensures NumberToString(ParseInt(s, 0)) == s
  {
    if CanonicalDigits(s) {
      var n := Value(s, 10);
      ToRadixValue(s);
      ParseToRadix(n, 0);
      ParseToRadix(n, 10);
    } else {
      var d := s[1..];
      var n := Value(d, 10);
      ToRadixValue(d);
      ParseToRadix(n, 0);
      ParseToRadix(n, 10);
      ValuePositive(d, 10);
      assert s == [Minus] + d;
    }
  }

  /** With no radix given, `parseInt` reads back what `String` printed,
      for every integer and for NaN. */
  lemma NumberRoundTrip(v: Option<int>)
    ensures ParseInt(NumberToString(v), 0) == v
  {
    match v
    case None =>
      assert DigitRun(NaNText, 10) == 0;
    case Some(n) =>
      if n >= 0 {
        ParseToRadix(n, 0);
      } else {
        var u := ToRadix(-n, 10);
        assert ParseInt(u, 0) == Some(-n) by {
          ParseToRadix(-n, 0);
        }
        assert ([Minus] + u)[1..] == u;
      }
  }
}
