/** Character and string primitives of the .NET runtime that the core relies on:
    whitespace and trimming, ASCII case folding, substring search, decimal conversion,
    Int32.TryParse and String.Replace. */
module Strings {
  import opened Wrappers

  /** Char.IsWhiteSpace: the Unicode separators plus U+0009..U+000D and U+0085. */
  predicate IsWhiteSpace(c: char) {
    c == ' ' || ('\t' <= c <= '\r') || c == '\U{85}' || c == '\U{A0}' || c == '\U{1680}' ||
    ('\U{2000}' <= c <= '\U{200A}') || c == '\U{2028}' || c == '\U{2029}' || c == '\U{202F}' ||
    c == '\U{205F}' || c == '\U{3000}'
  }

  /** The number of white-space characters s starts with. */
  function LeadingWhite(s: string): (k: nat)
    ensures k <= |s|
    ensures forall i :: 0 <= i < k ==> IsWhiteSpace(s[i])
    ensures k < |s| ==> !IsWhiteSpace(s[k])
    decreases |s|
  {
    if s != [] && IsWhiteSpace(s[0]) then 1 + LeadingWhite(s[1..]) else 0
  }

  /** The length of s without its trailing white space. */
  function TrailingStart(s: string): (k: nat)
    ensures k <= |s|
    ensures forall i :: k <= i < |s| ==> IsWhiteSpace(s[i])
    ensures k > 0 ==> !IsWhiteSpace(s[k - 1])
    decreases |s|
  {
    if s != [] && IsWhiteSpace(s[|s| - 1]) then TrailingStart(s[..|s| - 1]) else |s|
  }

  /** String.TrimStart() */
  function TrimStart(s: string): (r: string)
    ensures |r| <= |s| && r == s[|s| - |r|..]
    ensures r == [] || !IsWhiteSpace(r[0])
    ensures forall i :: 0 <= i < |s| - |r| ==> IsWhiteSpace(s[i])
  {
    s[LeadingWhite(s)..]
  }

  /** String.TrimEnd() */
  function TrimEnd(s: string): (r: string)
    ensures |r| <= |s| && r == s[..|r|]
    ensures r == [] || !IsWhiteSpace(r[|r| - 1])
    ensures forall i :: |r| <= i < |s| ==> IsWhiteSpace(s[i])
  {
    s[..TrailingStart(s)]
  }

  /** String.Trim(): removes every leading and trailing white-space character. */
  function Trim(s: string): (r: string)
  {
    TrimEnd(TrimStart(s))
  }

  /** What Trim keeps starts and ends with a character that is not white space. */
  lemma TrimEnds(s: string)
    ensures Trim(s) == [] || (!IsWhiteSpace(Trim(s)[0]) && !IsWhiteSpace(Trim(s)[|Trim(s)| - 1]))
  {
    var t := TrimStart(s);
    var r := TrimEnd(t);
    if r != [] {
      assert r[0] == t[0];
    }
  }

  /** A string whose ends are not white space is left alone by Trim. */
  lemma TrimNoOp(s: string)
    requires s == [] || (!IsWhiteSpace(s[0]) && !IsWhiteSpace(s[|s| - 1]))
    ensures Trim(s) == s
  {
  }

  /** True iff the string is empty or made of white space only (Trim() == string.Empty). */
  lemma TrimEmptyIffBlank(s: string)
    ensures Trim(s) == [] <==> forall i :: 0 <= i < |s| ==> IsWhiteSpace(s[i])
  {
    var t := TrimStart(s);
    if forall i :: 0 <= i < |s| ==> IsWhiteSpace(s[i]) {
      TrimStartBlank(s);
    }
  }

  lemma {:induction false} TrimStartBlank(s: string)
    requires forall i :: 0 <= i < |s| ==> IsWhiteSpace(s[i])
    ensures TrimStart(s) == []
  {
    if s != [] {
      TrimStartBlank(s[1..]);
    }
  }

  /** Char.ToLower restricted to ASCII letters. */
  function ToLowerChar(c: char): (r: char)
    ensures 'A' <= c <= 'Z' ==> r != c && 'a' <= r <= 'z'
    ensures !('A' <= c <= 'Z') ==> r == c
  {
    if 'A' <= c <= 'Z' then (c as int - 'A' as int + 'a' as int) as char else c
  }

  /** String.ToLower(), ASCII letters only. */
  function ToLower(s: string): (r: string)
    ensures |r| == |s|
    ensures forall i :: 0 <= i < |s| ==> r[i] == ToLowerChar(s[i])
  {
    seq(|s|, i requires 0 <= i < |s| => ToLowerChar(s[i]))
  }

  lemma ToLowerIdempotent(s: string)
    ensures ToLower(ToLower(s)) == ToLower(s)
  {
  }

  /** `t` occurs in `s` at position `i`. */
  predicate OccursAt(s: string, t: string, i: int) {
    0 <= i && i + |t| <= |s| && s[i..i + |t|] == t
  }

  /** String.IndexOf(t, from): the first position >= from where t occurs, or -1. */
  function IndexOfFrom(s: string, t: string, from: nat): (r: int)
    requires from <= |s|
    ensures r == -1 || (from <= r && OccursAt(s, t, r))
    ensures r == -1 ==> forall i :: from <= i <= |s| ==> !OccursAt(s, t, i)
    ensures r != -1 ==> forall i :: from <= i < r ==> !OccursAt(s, t, i)
    decreases |s| - from
  {
    if OccursAt(s, t, from) then from
    else if from + |t| >= |s| then
      assert forall i :: from < i <= |s| ==> !OccursAt(s, t, i);
      -1
    else IndexOfFrom(s, t, from + 1)
  }

  /** String.Contains(t) */
  predicate Contains(s: string, t: string) {
    IndexOfFrom(s, t, 0) != -1
  }

  lemma ContainsIff(s: string, t: string)
    ensures Contains(s, t) <==> exists i :: OccursAt(s, t, i)
  {
    if exists i :: OccursAt(s, t, i) {
      var i :| OccursAt(s, t, i);
      assert 0 <= i <= |s|;
    }
  }

  /** String.Contains(c) for a single character. */
  predicate ContainsChar(s: string, c: char) {
    c in s
  }

  /** String.StartsWith(p), ordinal. */
  predicate StartsWith(s: string, p: string) {
    |p| <= |s| && s[..|p|] == p
  }

  /** String.EndsWith(p), ordinal. */
  predicate EndsWith(s: string, p: string) {
    |p| <= |s| && s[|s| - |p|..] == p
  }

  predicate IsDigit(c: char) { '0' <= c <= '9' }

  predicate AllDigits(s: string) { forall i :: 0 <= i < |s| ==> IsDigit(s[i]) }

  function DigitChar(d: nat): (c: char)
    requires d < 10
    ensures IsDigit(c)
  {
    ('0' as int + d) as char
  }

  function DigitValue(c: char): (d: nat)
    requires IsDigit(c)
    ensures d < 10 && DigitChar(d) == c
  {
    (c as int - '0' as int) as nat
  }

  /** Int32.ToString() for a non-negative value: decimal digits, no leading zero. */
  function NatToString(n: nat): (r: string)
    ensures |r| > 0 && AllDigits(r)
    ensures |r| > 1 ==> r[0] != '0'
  {
    if n < 10 then [DigitChar(n)] else NatToString(n / 10) + [DigitChar(n % 10)]
  }

  /** The value of a non-empty string of decimal digits. */
  function ParseDigits(s: string): nat
    requires |s| > 0 && AllDigits(s)
  {
    if |s| == 1 then DigitValue(s[0])
    else ParseDigits(s[..|s| - 1]) * 10 + DigitValue(s[|s| - 1])
  }

  /** Reading back the decimal rendering of n gives n. */
  lemma {:induction false} ParseNatToString(n: nat)
    ensures ParseDigits(NatToString(n)) == n
  {
    if n >= 10 {
      var s := NatToString(n);
      assert s[..|s| - 1] == NatToString(n / 10);
      ParseNatToString(n / 10);
    }
  }

  /** Distinct numbers have distinct decimal renderings. */
  lemma NatToStringInjective(a: nat, b: nat)
    requires NatToString(a) == NatToString(b)
    ensures a == b
  {
    ParseNatToString(a);
    ParseNatToString(b);
  }

  /** Int32.ToString() for any value: a minus sign before the digits of a negative one. */
  function IntToString(n: int): (r: string)
    ensures |r| > 0
    ensures n < 0 <==> r[0] == '-'
  {
    if n < 0 then "-" + NatToString(-n) else NatToString(n)
  }

  /** Distinct integers have distinct renderings. */
  lemma IntToStringInjective(a: int, b: int)
    requires IntToString(a) == IntToString(b)
    ensures a == b
  {
    if a < 0 && b < 0 {
      assert NatToString(-a) == IntToString(a)[1..];
      NatToStringInjective(-a, -b);
    } else if a >= 0 && b >= 0 {
      NatToStringInjective(a, b);
    }
  }

  /** The white space Int32.TryParse skips around the number (NumberStyles.Integer). */
  predicate IsNumberWhite(c: char) { c == ' ' || ('\t' <= c <= '\r') }

  function TrimNumberWhite(s: string): (r: string)
    ensures |r| <= |s|
    ensures r == [] || (!IsNumberWhite(r[0]) && !IsNumberWhite(r[|r| - 1]))
    ensures (forall i :: 0 <= i < |s| ==> !IsNumberWhite(s[i])) ==> r == s
  {
    if s != [] && IsNumberWhite(s[0]) then TrimNumberWhite(s[1..])
    else if s != [] && IsNumberWhite(s[|s| - 1]) then TrimNumberWhite(s[..|s| - 1])
    else s
  }

  const Int32Min: int := -0x8000_0000
  const Int32Max: int := 0x7FFF_FFFF

  /** Int32.TryParse(s, out v) with NumberStyles.Integer: optional white space, an optional
      sign, decimal digits, optional white space, and a value in the Int32 range. */
  function TryParseInt32(s: string): (r: Option<int>)
    ensures r.Some? ==> Int32Min <= r.value <= Int32Max
  {
    var t := TrimNumberWhite(s);
    if t == [] then None
    else
      var negative := t[0] == '-';
      var digits := if t[0] == '-' || t[0] == '+' then t[1..] else t;
      if digits == [] || !AllDigits(digits) then None
      else
        var magnitude: int := ParseDigits(digits);
        var v := if negative then -magnitude else magnitude;
        if Int32Min <= v <= Int32Max then Some(v) else None
  }

  /** Int32.TryParse reads back what Int32.ToString wrote. */
  lemma TryParseNatToString(n: nat)
    requires n <= Int32Max
    ensures TryParseInt32(NatToString(n)) == Some(n)
  {
    ParseNatToString(n);
    var s := NatToString(n);
    assert forall i :: 0 <= i < |s| ==> !IsNumberWhite(s[i]) by {
      forall i | 0 <= i < |s| ensures !IsNumberWhite(s[i]) { assert IsDigit(s[i]); }
    }
  }

  /** String.Replace(o, n), ordinal: every non-overlapping occurrence of o, scanning from the
      left, is replaced by n. (.NET refuses an empty o.) */
  function Replace(s: string, o: string, n: string): (r: string)
    requires |o| > 0
    decreases |s|
  {
    if |s| < |o| then s
    else if s[..|o|] == o then n + Replace(s[|o|..], o, n)
    else [s[0]] + Replace(s[1..], o, n)
  }

  /** Replace changes nothing when the searched string does not occur. */
  lemma {:induction false} ReplaceAbsent(s: string, o: string, n: string)
    requires |o| > 0
    requires forall i :: !OccursAt(s, o, i)
    ensures Replace(s, o, n) == s
  {
    if |s| >= |o| {
      assert !OccursAt(s, o, 0);
      forall i ensures !OccursAt(s[1..], o, i) {
        if 0 <= i && i + |o| <= |s| - 1 {
          assert s[1..][i..i + |o|] == s[i + 1..i + 1 + |o|];
          assert !OccursAt(s, o, i + 1);
        }
      }
      ReplaceAbsent(s[1..], o, n);
    }
  }

  /** A character that starts no occurrence of o is copied as it is. */
  lemma {:induction false} ReplaceKeepsChar(s: string, o: string, n: string, c: char)
    requires |o| > 0 && o[0] == c && c !in s
    ensures Replace(s, o, n) == s
  {
    forall i | 0 <= i < |s| ensures !OccursAt(s, o, i) {
      if i + |o| <= |s| {
        assert s[i..i + |o|][0] == s[i];
        assert s[i] in s;
      }
    }
    ReplaceAbsent(s, o, n);
  }

  /** A System.Text.StringBuilder: text appended in place. */
  class StringBuilder {
    var text: string

    constructor ()
      ensures text == ""
    {
      text := "";
    }

    /** StringBuilder.Append(s) */
    method Append(s: string)
      modifies this
      ensures text == old(text) + s
    {
      text := text + s;
    }
  }
}
