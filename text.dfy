/** JavaScript strings as sequences of UTF-16 code units, bytes as small
    integers, and the string operations the handler uses: `split` with a
    string separator, `join`, and `split('').reverse().join('')`. */
module Text {
  import opened Options

  /** One UTF-16 code unit, as returned by `charCodeAt`. */
  type Unit = n: int | 0 <= n < 0x1_0000

  /** One octet of a Node `Buffer`. */
  type Byte = n: int | 0 <= n < 0x100

  /** A JavaScript string. */
  type Str = seq<Unit>

  predicate IsAscii(s: Str) {
    forall i | 0 <= i < |s| :: s[i] < 0x80
  }

  /** `s.split('').reverse().join('')`: the code units in the opposite order. */
  function Reverse<T>(s: seq<T>): (r: seq<T>)
    ensures |r| == |s|
    ensures forall k | 0 <= k < |s| :: r[k] == s[|s| - 1 - k]
  {
    if s == [] then [] else Reverse(s[1..]) + [s[0]]
  }

  /** Reversing twice gives back the original string. */
  lemma ReverseInvolutive<T>(s: seq<T>)
    ensures Reverse(Reverse(s)) == s
  {
  }

  /** `sep` occurs in `s` starting at index `i`. */
  predicate OccursAt(s: Str, sep: Str, i: nat) {
    i + |sep| <= |s| && s[i..i + |sep|] == sep
  }

  /** The first index at or after `from` where `sep` occurs in `s`, as
      `String.prototype.indexOf` finds it. */
  function IndexOfFrom(s: Str, sep: Str, from: nat): (r: Option<nat>)
    requires from <= |s|
    decreases |s| - from
    ensures r.Some? ==> from <= r.value && OccursAt(s, sep, r.value)
    ensures forall j | from <= j && (r.None? || j < r.value) :: !OccursAt(s, sep, j)
  {
    if OccursAt(s, sep, from) then Some(from)
    else if from + |sep| >= |s| then
      assert forall j | from < j :: !OccursAt(s, sep, j);
      None
    else IndexOfFrom(s, sep, from + 1)
  }

  function IndexOf(s: Str, sep: Str): (r: Option<nat>)
    ensures r.Some? ==> OccursAt(s, sep, r.value)
    ensures forall j | 0 <= j && (r.None? || j < r.value) :: !OccursAt(s, sep, j)
  {
    IndexOfFrom(s, sep, 0)
  }

  /** `s` contains no occurrence of `sep`. */
  predicate Free(s: Str, sep: Str) {
    forall j | 0 <= j < |s| :: !OccursAt(s, sep, j)
  }

  /** `s.split(sep)` for a non-empty separator: the pieces between the
      non-overlapping occurrences of `sep`, found left to right. The empty
      string splits into one empty piece. */
  function Split(s: Str, sep: Str): (r: seq<Str>)
    requires |sep| > 0
    decreases |s|
    ensures |r| >= 1
    ensures forall k | 0 <= k < |r| :: Free(r[k], sep)
  {
    match IndexOf(s, sep)
    case None => [s]
    case Some(i) =>
      assert Free(s[..i], sep) by {
        forall j | 0 <= j < i && OccursAt(s[..i], sep, j) ensures false {
          assert s[..i][j..j + |sep|] == s[j..j + |sep|];
          assert OccursAt(s, sep, j);
        }
      }
      [s[..i]] + Split(s[i + |sep|..], sep)
  }

  /** `parts.join(sep)`. */
  function Join(parts: seq<Str>, sep: Str): Str
    requires |parts| >= 1
  {
    if |parts| == 1 then parts[0] else parts[0] + sep + Join(parts[1..], sep)
  }

  /** Splitting loses nothing: joining the pieces with the separator gives
      back the string. */
  lemma {:induction false} JoinSplit(s: Str, sep: Str)
    requires |sep| > 0
    ensures Join(Split(s, sep), sep) == s
    decreases |s|
  {
    var r := IndexOf(s, sep);
    if r.Some? {
      var i := r.value;
      var rest := s[i + |sep|..];
      var tail := Split(rest, sep);
      assert Join(tail, sep) == rest by {
        JoinSplit(rest, sep);
      }
      assert Split(s, sep) == [s[..i]] + tail;
      assert Join([s[..i]] + tail, sep) == s[..i] + sep + Join(tail, sep);
      assert s == s[..i] + sep + rest;
    }
  }

  /** A string that does not contain the separator's first unit splits
      into itself alone. */
  lemma SplitFree(s: Str, sep: Str)
    requires |sep| > 0 && forall i | 0 <= i < |s| :: s[i] != sep[0]
    ensures Split(s, sep) == [s]
  {
  }

  /** If the separator's first unit does not occur in `a`, the first
      occurrence in `a + sep + b` is the one right after `a`. */
  lemma SplitAfter(a: Str, sep: Str, b: Str)
    requires |sep| > 0 && forall i | 0 <= i < |a| :: a[i] != sep[0]
    ensures Split(a + sep + b, sep) == [a] + Split(b, sep)
  {
    var s := a + sep + b;
    assert OccursAt(s, sep, |a|) by {
      assert s[|a|..|a| + |sep|] == sep;
    }
    forall j | 0 <= j < |a| ensures !OccursAt(s, sep, j) {
      assert s[j] == a[j];
    }
    assert s[..|a|] == a;
    assert s[|a| + |sep|..] == b;
  }

  /** For a one-unit separator, containing no occurrence means not
      containing that unit. */
  lemma FreeOfUnit(s: Str, c: Unit)
    ensures Free(s, [c]) <==> forall i | 0 <= i < |s| :: s[i] != c
  {
    forall i | 0 <= i < |s| ensures OccursAt(s, [c], i) <==> s[i] == c {
      assert s[i..i + 1] == [s[i]];
    }
  }

  lemma AsciiConcat(a: Str, b: Str)
    requires IsAscii(a) && IsAscii(b)
    ensures IsAscii(a + b)
  {
    forall i | 0 <= i < |a + b| ensures (a + b)[i] < 0x80 {
      if i >= |a| {
        assert (a + b)[i] == b[i - |a|];
      }
    }
  }
}
