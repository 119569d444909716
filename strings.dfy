/**
 * String helpers shared by the Python and JavaScript models: decimal rendering,
 * ASCII lower-casing, searching, splitting and joining, per-character rewriting
 * and whitespace stripping.
 */
module Strings {

  // ---------------------------------------------------------------- digits

  predicate IsAsciiDigit(c: char) { '0' <= c <= '9' }

  predicate AllDigits(s: string) { forall i :: 0 <= i < |s| ==> IsAsciiDigit(s[i]) }

  function DigitChar(d: nat): (c: char)
    requires d < 10
    ensures IsAsciiDigit(c)
  {
    (48 + d) as char
  }

  function DigitValue(c: char): (d: nat)
    requires IsAsciiDigit(c)
    ensures d < 10 && DigitChar(d) == c
  {
    c as int - 48
  }

  /** Decimal rendering of a natural number, as Python's f"{n}" and JavaScript's `${n}` give it. */
  function NatToString(n: nat): (s: string)
    ensures |s| >= 1 && AllDigits(s)
    decreases n
  {
    if n < 10 then [DigitChar(n)] else NatToString(n / 10) + [DigitChar(n % 10)]
  }

  /** Decimal rendering of any integer: a minus sign before the digits of a negative one. */
  function IntToString(i: int): (s: string)
    ensures i >= 0 ==> s == NatToString(i)
    ensures i < 0 ==> s == "-" + NatToString(-i)
  {
    if i < 0 then "-" + NatToString(-i) else NatToString(i)
  }

  /** The value of a string of decimal digits (the empty string reads as 0). */
  function ParseNat(s: string): nat
    requires AllDigits(s)
  {
    if |s| == 0 then 0 else ParseNat(s[..|s| - 1]) * 10 + DigitValue(s[|s| - 1])
  }

  lemma {:induction false} ParseNatToString(n: nat)
    ensures ParseNat(NatToString(n)) == n
    decreases n
  {
    if n >= 10 {
      var s := NatToString(n);
      assert s[..|s| - 1] == NatToString(n / 10);
      ParseNatToString(n / 10);
    }
  }

  /** Distinct numbers render as distinct strings. */
  lemma NatToStringInjective(a: nat, b: nat)
    ensures NatToString(a) == NatToString(b) ==> a == b
  {
    ParseNatToString(a);
    ParseNatToString(b);
  }

  function Pow10(k: nat): (p: nat)
    ensures p >= 1
  {
    if k == 0 then 1 else 10 * Pow10(k - 1)
  }

  /**
   * The six-character code drawn from a random number: the last six decimal digits of n,
   * zero-padded. Every string of six ASCII digits is the code of some n < 10^6.
   */
  function SixDigits(n: nat): (code: string)
    ensures |code| == 6 && AllDigits(code)
  {
    seq(6, i requires 0 <= i < 6 => DigitChar((n / Pow10(5 - i)) % 10))
  }

  // ---------------------------------------------------------------- case and prefixes

  predicate StartsWith(s: string, prefix: string) {
    |prefix| <= |s| && s[..|prefix|] == prefix
  }

  lemma StartsWithConcat(prefix: string, rest: string)
    ensures StartsWith(prefix + rest, prefix)
    ensures (prefix + rest)[|prefix|..] == rest
  {
    assert (prefix + rest)[..|prefix|] == prefix;
  }

  /** ASCII lower-casing of one character. */
  function LowerChar(c: char): (r: char)
    ensures 'A' <= c <= 'Z' ==> r as int == c as int + 32
    ensures !('A' <= c <= 'Z') ==> r == c
  {
    if 'A' <= c <= 'Z' then (c as int + 32) as char else c
  }

  /** ASCII lower-casing of a string, character by character. */
  function Lower(s: string): (r: string)
    ensures |r| == |s|
    ensures forall i :: 0 <= i < |s| ==> r[i] == LowerChar(s[i])
  {
    seq(|s|, i requires 0 <= i < |s| => LowerChar(s[i]))
  }

  // ---------------------------------------------------------------- searching

  /** The separator `sep` occurs in `s` at position k. */
  predicate OccursAt(s: string, sep: string, k: int) {
    0 <= k && k + |sep| <= |s| && s[k..k + |sep|] == sep
  }

  /** JavaScript's `s.includes(t)`: t occurs somewhere in s. */
  predicate Contains(s: string, t: string) {
    exists k :: 0 <= k <= |s| - |t| && OccursAt(s, t, k)
  }

  /** The first occurrence of `sep` in `s` at or after i, or -1. */
  function FindFrom(s: string, sep: string, i: nat): (r: int)
    requires |sep| > 0 && i <= |s|
    ensures r == -1 || (i <= r && OccursAt(s, sep, r))
    ensures r >= 0 ==> forall k :: i <= k < r ==> !OccursAt(s, sep, k)
    ensures r == -1 ==> forall k :: i <= k ==> !OccursAt(s, sep, k)
    decreases |s| - i
  {
    if i + |sep| > |s| then -1
    else if OccursAt(s, sep, i) then i
    else FindFrom(s, sep, i + 1)
  }

  /** The first index of x in s, or -1 (JavaScript's `indexOf`). */
  function IndexOf<T(==)>(s: seq<T>, x: T): (r: int)
    ensures -1 <= r < |s|
    ensures r >= 0 ==> s[r] == x && forall k :: 0 <= k < r ==> s[k] != x
    ensures r == -1 <==> x !in s
  {
    if |s| == 0 then -1
    else if s[0] == x then 0
    else var r := IndexOf(s[1..], x); if r < 0 then -1 else r + 1
  }

  /** The last index of c in s, or -1 (JavaScript's `lastIndexOf`). */
  function LastIndexOf(s: string, c: char): (r: int)
    ensures -1 <= r < |s|
    ensures r >= 0 ==> s[r] == c && forall k :: r < k < |s| ==> s[k] != c
    ensures r == -1 <==> c !in s
    decreases |s|
  {
    if |s| == 0 then -1
    else if s[|s| - 1] == c then |s| - 1
    else LastIndexOf(s[..|s| - 1], c)
  }

  // ---------------------------------------------------------------- split and join

  /** s contains no occurrence of sep. */
  predicate Free(s: string, sep: string) {
    forall k :: 0 <= k <= |s| ==> !OccursAt(s, sep, k)
  }

  /** The pieces of s between the occurrences of sep, left to right (JavaScript's `split`). */
  function Split(s: string, sep: string): (parts: seq<string>)
    requires |sep| > 0
    ensures |parts| >= 1
    decreases |s|
  {
    var r := FindFrom(s, sep, 0);
    if r < 0 then [s] else [s[..r]] + Split(s[r + |sep|..], sep)
  }

  /** The parts glued together with sep between each two (JavaScript's `join`). */
  function Join(parts: seq<string>, sep: string): string {
    if |parts| == 0 then ""
    else if |parts| == 1 then parts[0]
    else parts[0] + sep + Join(parts[1..], sep)
  }

  /** Splitting loses nothing: joining the pieces back gives the original string. */
  lemma {:induction false} JoinSplit(s: string, sep: string)
    requires |sep| > 0
    ensures Join(Split(s, sep), sep) == s
    decreases |s|
  {
    var r := FindFrom(s, sep, 0);
    if r >= 0 {
      var rest := s[r + |sep|..];
      var tail := Split(rest, sep);
      JoinSplit(rest, sep);
      JoinCons(s[..r], tail, sep);
      assert s[r..r + |sep|] == sep;
      assert s == s[..r] + s[r..r + |sep|] + rest;
    }
  }

  lemma JoinCons(a: string, tail: seq<string>, sep: string)
    requires |tail| >= 1
    ensures Join([a] + tail, sep) == a + sep + Join(tail, sep)
  {
    assert ([a] + tail)[1..] == tail;
  }

  /** A string free of sep splits into itself alone. */
  lemma SplitFree(s: string, sep: string)
    requires |sep| > 0 && Free(s, sep)
    ensures Split(s, sep) == [s]
  {
  }

  /**
   * Joining and then splitting gives the parts back, for a two-character separator whose
   * characters differ (such as "; ") and parts that do not contain it.
   */
  lemma {:induction false} SplitJoin(parts: seq<string>, sep: string)
    requires |sep| == 2 && sep[0] != sep[1]
    requires |parts| >= 1
    requires forall i :: 0 <= i < |parts| ==> Free(parts[i], sep)
    ensures Split(Join(parts, sep), sep) == parts
    decreases |parts|
  {
    if |parts| == 1 {
      SplitFree(parts[0], sep);
    } else {
      var p, rest := parts[0], Join(parts[1..], sep);
      SplitJoin(parts[1..], sep);
      SplitAtFirstSeparator(p, sep, rest);
      assert parts == [p] + parts[1..];
    }
  }

  /** A sep-free piece, then sep: the split cuts at that sep and goes on with the rest. */
  lemma SplitAtFirstSeparator(p: string, sep: string, rest: string)
    requires |sep| == 2 && sep[0] != sep[1] && Free(p, sep)
    ensures Split(p + sep + rest, sep) == [p] + Split(rest, sep)
  {
    var s := p + sep + rest;
    FirstSeparatorAt(p, sep, rest);
    assert s[|p| + |sep|..] == rest;
    assert s[..|p|] == p;
  }

  /** The first sep of p + sep + rest is the one after p. */
  lemma FirstSeparatorAt(p: string, sep: string, rest: string)
    requires |sep| == 2 && sep[0] != sep[1] && Free(p, sep)
    ensures FindFrom(p + sep + rest, sep, 0) == |p|
  {
    var s := p + sep + rest;
    assert s[|p|..|p| + 2] == sep;
    forall k | 0 <= k < |p|
      ensures !OccursAt(s, sep, k)
    {
      NoSeparatorInside(p, sep, rest, k);
    }
    assert OccursAt(s, sep, |p|);
    var r := FindFrom(s, sep, 0);
    assert r != -1 && !(r < |p|) && !(|p| < r);
  }

  /** No sep of p + sep + rest starts inside p. */
  lemma NoSeparatorInside(p: string, sep: string, rest: string, k: nat)
    requires |sep| == 2 && sep[0] != sep[1] && Free(p, sep) && k < |p|
    ensures !OccursAt(p + sep + rest, sep, k)
  {
    var s := p + sep + rest;
    if k + 2 <= |p| {
      assert s[k..k + 2] == p[k..k + 2];
      assert !OccursAt(p, sep, k);
    } else {
      assert s[k + 1] == sep[0];
      assert s[k..k + 2][1] == s[k + 1];
    }
  }

  // ---------------------------------------------------------------- per-character rewriting

  /** Replace every character c of s by the string f(c), left to right. */
  function FlatMap(f: char -> string, s: string): string
    decreases |s|
  {
    if |s| == 0 then "" else f(s[0]) + FlatMap(f, s[1..])
  }

  lemma {:induction false} FlatMapConcat(f: char -> string, a: string, b: string)
    ensures FlatMap(f, a + b) == FlatMap(f, a) + FlatMap(f, b)
    decreases |a|
  {
    if |a| > 0 {
      assert (a + b)[1..] == a[1..] + b;
      FlatMapConcat(f, a[1..], b);
    } else {
      assert a + b == b;
    }
  }

  /** Python's str.replace(c, r) for a single character c. */
  function ReplaceAll(s: string, c: char, r: string): (t: string)
    decreases |s|
  {
    if |s| == 0 then "" else (if s[0] == c then r else [s[0]]) + ReplaceAll(s[1..], c, r)
  }

  lemma {:induction false} ReplaceAllConcat(a: string, b: string, c: char, r: string)
    ensures ReplaceAll(a + b, c, r) == ReplaceAll(a, c, r) + ReplaceAll(b, c, r)
    decreases |a|
  {
    if |a| > 0 {
      assert (a + b)[1..] == a[1..] + b;
      ReplaceAllConcat(a[1..], b, c, r);
    } else {
      assert a + b == b;
    }
  }

  lemma {:induction false} ReplaceAllAbsent(s: string, c: char, r: string)
    requires c !in s
    ensures ReplaceAll(s, c, r) == s
    decreases |s|
  {
    if |s| > 0 {
      assert c !in s[1..];
      ReplaceAllAbsent(s[1..], c, r);
    }
  }

  // ---------------------------------------------------------------- whitespace

  /** The characters for which Python's str.isspace() holds (what str.strip() removes). */
  predicate PyIsSpace(c: char) {
    var n := c as int;
    (9 <= n <= 13) || (28 <= n <= 32) || n == 0x85 || n == 0xA0 || n == 0x1680
    || (0x2000 <= n <= 0x200A) || n == 0x2028 || n == 0x2029 || n == 0x202F
    || n == 0x205F || n == 0x3000
  }

  /** The characters JavaScript's String.prototype.trim() removes (WhiteSpace and LineTerminator). */
  predicate JsIsSpace(c: char) {
    var n := c as int;
    (9 <= n <= 13) || n == 32 || n == 0xA0 || n == 0x1680 || (0x2000 <= n <= 0x200A)
    || n == 0x2028 || n == 0x2029 || n == 0x202F || n == 0x205F || n == 0x3000 || n == 0xFEFF
  }

  predicate AllSpace(s: string, isSpace: char -> bool) {
    forall k :: 0 <= k < |s| ==> isSpace(s[k])
  }

  /** s without its leading whitespace. */
  function TrimStart(s: string, isSpace: char -> bool): (t: string)
    ensures |t| <= |s| && t == s[|s| - |t|..]
    ensures AllSpace(s[..|s| - |t|], isSpace)
    ensures t == [] || !isSpace(t[0])
    decreases |s|
  {
    if |s| > 0 && isSpace(s[0]) then
      var t := TrimStart(s[1..], isSpace);
      TrimStartStep(s, t, isSpace);
      t
    else s
  }

  /** s without its trailing whitespace. */
  function TrimEnd(s: string, isSpace: char -> bool): (t: string)
    ensures |t| <= |s| && t == s[..|t|]
    ensures AllSpace(s[|t|..], isSpace)
    ensures t == [] || !isSpace(t[|t| - 1])
    decreases |s|
  {
    if |s| > 0 && isSpace(s[|s| - 1]) then
      var t := TrimEnd(s[..|s| - 1], isSpace);
      TrimEndStep(s, t, isSpace);
      t
    else s
  }

  /** A leading space before text trimmed at the front leaves the same text trimmed. */
  lemma TrimStartStep(s: string, t: string, isSpace: char -> bool)
    requires |s| > 0 && isSpace(s[0])
    requires |t| <= |s| - 1 && t == s[1..][|s| - 1 - |t|..] && AllSpace(s[1..][..|s| - 1 - |t|], isSpace)
    ensures t == s[|s| - |t|..] && AllSpace(s[..|s| - |t|], isSpace)
  {
    assert s[..|s| - |t|] == [s[0]] + s[1..][..|s| - 1 - |t|];
  }

  /** A trailing space after text trimmed at the end leaves the same text trimmed. */
  lemma TrimEndStep(s: string, t: string, isSpace: char -> bool)
    requires |s| > 0 && isSpace(s[|s| - 1])
    requires |t| <= |s| - 1 && t == s[..|s| - 1][..|t|] && AllSpace(s[..|s| - 1][|t|..], isSpace)
    ensures t == s[..|t|] && AllSpace(s[|t|..], isSpace)
  {
    assert s[|t|..] == s[..|s| - 1][|t|..] + [s[|s| - 1]];
  }

  /** Python's str.strip() and JavaScript's trim(), for the given notion of whitespace. */
  function Strip(s: string, isSpace: char -> bool): string {
    TrimEnd(TrimStart(s, isSpace), isSpace)
  }

  /** Stripping yields the empty string exactly when every character is whitespace. */
  lemma StripEmptyIffAllSpace(s: string, isSpace: char -> bool)
    ensures Strip(s, isSpace) == "" <==> AllSpace(s, isSpace)
  {
    var t := TrimStart(s, isSpace);
    if Strip(s, isSpace) == "" {
      assert t == [] by { assert t[0..] == t; }
      assert s[..|s|] == s;
    }
  }

  /** A stripped string starts and ends with a non-space character and is a slice of the input. */
  lemma StripShape(s: string, isSpace: char -> bool)
    ensures var t := Strip(s, isSpace);
      (t == [] || (!isSpace(t[0]) && !isSpace(t[|t| - 1])))
      && exists i :: 0 <= i <= |s| - |t| && OccursAt(s, t, i)
  {
    var a := TrimStart(s, isSpace);
    var t := TrimEnd(a, isSpace);
    PrefixOfSuffixOccurs(s, a, t);
    StripEnds(s, isSpace);
  }

  /** A prefix t of the suffix a of s occurs in s where a begins. */
  lemma PrefixOfSuffixOccurs(s: string, a: string, t: string)
    requires |a| <= |s| && a == s[|s| - |a|..]
    requires |t| <= |a| && t == a[..|t|]
    ensures OccursAt(s, t, |s| - |a|)
  {
    var i := |s| - |a|;
    assert s[i..i + |t|] == a[..|t|];
  }

  /** Neither end of a stripped string is a space. */
  lemma StripEnds(s: string, isSpace: char -> bool)
    ensures var t := Strip(s, isSpace); t == [] || (!isSpace(t[0]) && !isSpace(t[|t| - 1]))
  {
    var a := TrimStart(s, isSpace);
    var t := TrimEnd(a, isSpace);
    if t != [] {
      assert t[0] == a[0];
    }
  }
}
