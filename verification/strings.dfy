/** The .NET string operations the analyser relies on, restated over `seq<char>`.
    Comparisons are ordinal (character by character). */
module Strings {
  import opened Wrappers

  // ---------------------------------------------------------------------------
  // Prefixes, suffixes and occurrences
  // ---------------------------------------------------------------------------

  predicate StartsWith(s: string, p: string) {
    |p| <= |s| && s[..|p|] == p
  }

  predicate EndsWith(s: string, p: string) {
    |p| <= |s| && s[|s| - |p|..] == p
  }

  /** A prefix fixes the leading characters; used to tell literal markers apart. */
  lemma StartsWithChars(s: string, p: string)
    requires StartsWith(s, p)
    ensures forall k :: 0 <= k < |p| ==> s[k] == p[k]
  {
    forall k | 0 <= k < |p|
      ensures s[k] == p[k]
    {
      assert s[..|p|][k] == s[k];
    }
  }

  lemma EndsWithChars(s: string, p: string)
    requires EndsWith(s, p)
    ensures forall k :: 0 <= k < |p| ==> s[|s| - |p| + k] == p[k]
  {
    forall k | 0 <= k < |p|
      ensures s[|s| - |p| + k] == p[k]
    {
      assert s[|s| - |p|..][k] == s[|s| - |p| + k];
    }
  }

  /** `sep` occurs in `s` starting at position `i`. */
  predicate OccursAt(s: string, sep: string, i: int) {
    0 <= i && i + |sep| <= |s| && s[i..i + |sep|] == sep
  }

  /** Ordinal `String.Contains(string)`. */
  predicate Contains(s: string, sep: string) {
    exists i :: 0 <= i <= |s| && OccursAt(s, sep, i)
  }

  /** An occurrence in a prefix is an occurrence in the whole string. */
  lemma OccursInPrefix(s: string, n: nat, sep: string, i: int)
    requires n <= |s|
    requires OccursAt(s[..n], sep, i)
    ensures OccursAt(s, sep, i)
  {
    assert s[..n][i..i + |sep|] == s[i..i + |sep|];
  }

  /** An occurrence in a suffix is an occurrence in the whole string, shifted. */
  lemma OccursInSuffix(s: string, n: nat, sep: string, i: int)
    requires n <= |s|
    requires OccursAt(s[n..], sep, i)
    ensures OccursAt(s, sep, n + i)
  {
    assert s[n..][i..i + |sep|] == s[n + i..n + i + |sep|];
  }

  /** The first occurrence of `sep` at or after `from`, or -1. */
  function IndexFrom(s: string, sep: string, from: nat): (r: int)
    requires |sep| > 0
    ensures r == -1 || (from <= r && OccursAt(s, sep, r))
    ensures forall j :: from <= j && (r == -1 || j < r) ==> !OccursAt(s, sep, j)
    decreases |s| - from
  {
    if from + |sep| > |s| then -1
    else if s[from..from + |sep|] == sep then from
    else IndexFrom(s, sep, from + 1)
  }

  /** Ordinal `String.IndexOf(string)` for a non-empty separator. */
  function IndexOf(s: string, sep: string): (r: int)
    requires |sep| > 0
    ensures r == -1 <==> !Contains(s, sep)
    ensures r >= 0 ==> OccursAt(s, sep, r)
    ensures forall j :: 0 <= j && (r == -1 || j < r) ==> !OccursAt(s, sep, j)
  {
    var r := IndexFrom(s, sep, 0);
    assert r == -1 ==> forall j :: !OccursAt(s, sep, j);
    r
  }

  // ---------------------------------------------------------------------------
  // Splitting and joining
  // ---------------------------------------------------------------------------

  /** The text before the first occurrence of `sep`, or all of `s` if there is none. */
  function Before(s: string, sep: string): (r: string)
    requires |sep| > 0
  {
    var k := IndexOf(s, sep);
    if k < 0 then s else s[..k]
  }

  /** The text after the first occurrence of `sep`. */
  function After(s: string, sep: string): (r: string)
    requires |sep| > 0
    requires Contains(s, sep)
  {
    s[IndexOf(s, sep) + |sep|..]
  }

  /** `String.Join(sep, parts)`. */
  function Join(parts: seq<string>, sep: string): string
    requires |parts| > 0
  {
    if |parts| == 1 then parts[0] else parts[0] + sep + Join(parts[1..], sep)
  }

  /** Ordinal `String.Split(string)` with a non-empty separator and no options: the pieces
      between the occurrences of `sep`, found left to right without overlap. */
  function Split(s: string, sep: string): (parts: seq<string>)
    requires |sep| > 0
    ensures |parts| >= 1
    ensures Join(parts, sep) == s
    ensures forall k :: 0 <= k < |parts| ==> !Contains(parts[k], sep)
    ensures |parts| == 1 <==> !Contains(s, sep)
    ensures parts[0] == Before(s, sep)
    ensures |parts| >= 2 ==> parts[1] == Before(After(s, sep), sep)
    decreases |s|
  {
    var k := IndexOf(s, sep);
    if k < 0 then [s]
    else
      var rest := Split(s[k + |sep|..], sep);
      var head := s[..k];
      assert !Contains(head, sep) by {
        forall j | OccursAt(head, sep, j)
          ensures false
        {
          OccursInPrefix(s, k, sep, j);
        }
      }
      assert s == head + sep + s[k + |sep|..] by {
        assert s[k..k + |sep|] == sep;
      }
      [head] + rest
  }

  /** The join of two or more pieces starts with the first two pieces glued by `sep`. */
  lemma {:induction false} JoinFirstTwo(parts: seq<string>, sep: string)
    requires |parts| >= 2
    ensures Join(parts, sep) == parts[0] + sep + parts[1]
      + (if |parts| == 2 then [] else sep + Join(parts[2..], sep))
  {
    assert parts[1..][0] == parts[1];
    if |parts| > 2 {
      assert parts[1..][1..] == parts[2..];
    }
  }

  /** A join of two or more pieces starts with the first two glued by `sep`, followed by
      either nothing or another `sep`. */
  lemma {:induction false} JoinedFirstTwo(parts: seq<string>, sep: string)
    requires |parts| >= 2
    ensures var s, two := Join(parts, sep), parts[0] + sep + parts[1];
      && StartsWith(s, two)
      && (|parts| == 2 ==> s == two)
      && (|parts| > 2 ==> OccursAt(s, sep, |two|))
  {
    var s, two := Join(parts, sep), parts[0] + sep + parts[1];
    JoinFirstTwo(parts, sep);
    var tail: string := if |parts| == 2 then [] else sep + Join(parts[2..], sep);
    assert s == two + tail;
    assert s[..|two|] == two;
    if |parts| > 2 {
      assert s[|two|..|two| + |sep|] == tail[..|sep|] == sep;
    }
  }

  /** When `sep` occurs, the first two pieces of the split, glued by `sep`, start the
      string, followed by either nothing or another `sep`. */
  lemma SplitFirstTwo(s: string, sep: string)
    requires |sep| > 0 && Contains(s, sep)
    ensures var parts := Split(s, sep);
      && |parts| >= 2
      && StartsWith(s, parts[0] + sep + parts[1])
      && (|parts| == 2 ==> s == parts[0] + sep + parts[1])
      && (|parts| > 2 ==> OccursAt(s, sep, |parts[0] + sep + parts[1]|))
  {
    JoinedFirstTwo(Split(s, sep), sep);
  }

  /** Everything up to the first occurrence of `c`, or all of `s`. */
  function CharIndex(s: string, c: char): (k: nat)
    ensures k <= |s|
    ensures forall j :: 0 <= j < k ==> s[j] != c
    ensures k < |s| ==> s[k] == c
  {
    if |s| == 0 || s[0] == c then 0 else 1 + CharIndex(s[1..], c)
  }

  /** All characters of `s` except the occurrences of `c`. */
  function Without(s: string, c: char): (r: string)
  {
    if |s| == 0 then []
    else (if s[0] == c then [] else [s[0]]) + Without(s[1..], c)
  }

  function Concat(pieces: seq<string>): string {
    if |pieces| == 0 then [] else pieces[0] + Concat(pieces[1..])
  }

  /** `String.Split(char, StringSplitOptions.RemoveEmptyEntries)`: the maximal runs of
      characters other than `c`, in order. */
  function SplitNonEmpty(s: string, c: char): (pieces: seq<string>)
    ensures forall k :: 0 <= k < |pieces| ==> |pieces[k]| > 0 && c !in pieces[k]
    ensures Concat(pieces) == Without(s, c)
    decreases |s|
  {
    if |s| == 0 then []
    else if s[0] == c then SplitNonEmpty(s[1..], c)
    else
      var k := CharIndex(s, c);
      WithoutRun(s, c, k);
      [s[..k]] + SplitNonEmpty(s[k..], c)
  }

  /** Dropping `c` from a run free of `c` keeps the run. */
  lemma {:induction false} WithoutRun(s: string, c: char, k: nat)
    requires k <= |s|
    requires forall j :: 0 <= j < k ==> s[j] != c
    ensures Without(s, c) == s[..k] + Without(s[k..], c)
    decreases k
  {
    if k > 0 {
      WithoutRun(s[1..], c, k - 1);
      assert s[1..][k - 1..] == s[k..];
      assert [s[0]] + s[1..][..k - 1] == s[..k];
    }
  }

  /** `String.TrimEnd(char)`: drops every trailing `c`. */
  function TrimEnd(s: string, c: char): (r: string)
    ensures StartsWith(s, r)
    ensures |r| == 0 || r[|r| - 1] != c
    ensures forall j :: |r| <= j < |s| ==> s[j] == c
  {
    if |s| > 0 && s[|s| - 1] == c then TrimEnd(s[..|s| - 1], c) else s
  }

  /** Replaces every `from` by `to`; `String.Replace` with one-character strings. */
  function ReplaceChar(s: string, from: char, to: char): (r: string)
    ensures |r| == |s|
    ensures forall i :: 0 <= i < |s| ==> r[i] == if s[i] == from then to else s[i]
  {
    seq(|s|, i requires 0 <= i < |s| => if s[i] == from then to else s[i])
  }

  // ---------------------------------------------------------------------------
  // Decimal integers: `int.Parse` and `int.ToString`
  // ---------------------------------------------------------------------------

  const MinInt32: int := -0x8000_0000
  const MaxInt32: int := 0x7FFF_FFFF

  predicate IsDigit(ch: char) {
    '0' <= ch <= '9'
  }

  predicate AllDigits(s: string) {
    forall i :: 0 <= i < |s| ==> IsDigit(s[i])
  }

  /** White space that `NumberStyles.Integer` allows around the number. */
  predicate IsNumberWhite(ch: char) {
    ch == ' ' || '\t' <= ch <= '\r'
  }

  function TrimStartWhite(s: string): (r: string)
    ensures |r| <= |s| && r == s[|s| - |r|..]
    ensures |r| == 0 || !IsNumberWhite(r[0])
  {
    if |s| > 0 && IsNumberWhite(s[0]) then TrimStartWhite(s[1..]) else s
  }

  function TrimEndWhite(s: string): (r: string)
    ensures StartsWith(s, r)
    ensures |r| == 0 || !IsNumberWhite(r[|r| - 1])
  {
    if |s| > 0 && IsNumberWhite(s[|s| - 1]) then TrimEndWhite(s[..|s| - 1]) else s
  }

  /** The value of a run of decimal digits, most significant first. */
  function DigitsValue(ds: string): nat
    requires AllDigits(ds)
  {
    if |ds| == 0 then 0
    else DigitsValue(ds[..|ds| - 1]) * 10 + (ds[|ds| - 1] as int - '0' as int)
  }

  /** `int.Parse(s)` with `NumberStyles.Integer` and invariant-culture signs: optional white
      space, an optional `+` or `-`, one or more digits, optional white space, and a value
      that fits in 32 bits. `None` stands for the `FormatException`/`OverflowException`. */
  function ParseInt32(s: string): (r: Option<int>)
    ensures r.Some? ==> MinInt32 <= r.value <= MaxInt32
    ensures r.Some? ==> exists i :: 0 <= i < |s| && IsDigit(s[i])
  {
    var t := TrimEndWhite(TrimStartWhite(s));
    if |t| == 0 then None
    else
      var negative := t[0] == '-';
      var ds := if t[0] == '-' || t[0] == '+' then t[1..] else t;
      if |ds| == 0 || !AllDigits(ds) then None
      else
        var magnitude: int := DigitsValue(ds);
        var v := if negative then -magnitude else magnitude;
        if MinInt32 <= v <= MaxInt32 then
          assert IsDigit(ds[0]);
          assert TrimStartWhite(s) == s[|s| - |TrimStartWhite(s)|..];
          Some(v)
        else None
  }

  function DigitChar(d: nat): (ch: char)
    requires d < 10
    ensures IsDigit(ch) && ch as int - '0' as int == d
  {
    (d + '0' as int) as char
  }

  /** The shortest decimal rendering of a natural number. */
  function NatToString(n: nat): (r: string)
    ensures |r| > 0 && AllDigits(r)
    ensures DigitsValue(r) == n
  {
    if n < 10 then [DigitChar(n)]
    else
      var r := NatToString(n / 10) + [DigitChar(n % 10)];
      assert r[..|r| - 1] == NatToString(n / 10);
      r
  }

  /** `int.ToString()` in the invariant culture. */
  function IntToString(n: int): (r: string)
  {
    if n < 0 then "-" + NatToString(-n) else NatToString(n)
  }

  /** Parsing the rendering of any 32-bit integer gives that integer back. */
  lemma ParseIntToString(n: int)
    requires MinInt32 <= n <= MaxInt32
    ensures ParseInt32(IntToString(n)) == Some(n)
  {
    var s := IntToString(n);
    assert TrimStartWhite(s) == s by {
      assert s[0] == '-' || IsDigit(s[0]);
    }
    assert TrimEndWhite(s) == s by {
      assert IsDigit(s[|s| - 1]);
    }
    if n < 0 {
      assert s[1..] == NatToString(-n);
    }
  }
}
